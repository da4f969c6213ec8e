/** mdb_freelist_save as a whole. The freeDB is a map from transaction ID to record; every put and delete in it may, by
    touching pages, use up me_pghead and the loose list, fetch more records and free more pages, so the loop goes on
    until the records agree with the lists. */
module FreelistRun {
  import opened Idl
  import opened IdlSort
  import opened Mvcc
  import opened MvccProof
  import opened Pages
  import opened FreelistSave
  import opened Seqs

  /** What one cursor call does to the lists besides: me_pghead, the loose list and me_pglast afterwards, and the
      pages it adds to mt_free_pgs. */
  datatype Effect = Effect(head: seq<Id>, loose: seq<Id>, last: nat, more: seq<Id>)

  /** The lists at some point, the freed pages as a bag, and the calls to come. */
  datatype Held = Held(head: seq<Id>, loose: seq<Id>, last: nat, freed: multiset<Id>, todo: seq<Effect>)

  /** The lists after n calls. */
  ghost function After(a: Held, n: nat): Held
    requires n <= |a.todo|
    decreases n
  {
    if n == 0 then a
    else
      var e := a.todo[0];
      After(Held(e.head, e.loose, e.last, a.freed + multiset(e.more), a.todo[1..]), n - 1)
  }

  ghost predicate Follows(a: Held, b: Held) {
    |b.todo| <= |a.todo| && b == After(a, |a.todo| - |b.todo|)
  }

  lemma {:induction false} AfterMore(a: Held, n: nat, m: nat)
    requires n + m <= |a.todo|
    ensures |After(a, n).todo| == |a.todo| - n && After(After(a, n), m) == After(a, n + m)
    decreases n
  {
    if n > 0 {
      var e := a.todo[0];
      AfterMore(Held(e.head, e.loose, e.last, a.freed + multiset(e.more), a.todo[1..]), n - 1, m);
    }
  }

  lemma FollowsOn(a: Held, b: Held, c: Held)
    requires Follows(a, b) && Follows(b, c)
    ensures Follows(a, c)
  {
    hide After;
    AfterMore(a, |a.todo| - |b.todo|, |b.todo| - |c.todo|);
  }

  lemma FollowsSelf(a: Held)
    ensures Follows(a, a)
  {
  }

  /** The loose pages are merged into the list, sorted. */
  ghost predicate TakenIn(head: seq<Id>, loose: seq<Id>, head': seq<Id>) {
    exists l: seq<Id> :: Descending(l) && multiset(l) == multiset(loose) && head' == Merge(head, l)
  }

  /** A record of the freeDB: a list, or room reserved for one. */
  datatype Slot = List(ids: seq<nat>) | Room(len: nat)

  /** me_pglast only moves up, to keys of records; pages are listed in me_pghead or loose only while me_pglast is set.
      */
  ghost predicate Plausible(es: seq<Effect>, base: map<nat, seq<nat>>, last: nat, freed: nat) {
    es != [] ==>
      var e := es[0];
      && last <= e.last && (e.last == last || e.last in base) && (e.head != [] || e.loose != [] ==> e.last >= 1)
      && |e.head| + |e.loose| < 0x8000_0000 && freed + |e.more| < 0x8000_0000
      && Plausible(es[1..], base, e.last, freed + |e.more|)
  }

  ghost predicate KeysOk(db: map<nat, Slot>, txnid: nat) {
    forall t :: t in db ==> 1 <= t <= txnid
  }

  /** The records between `last` and this transaction's own are those committed. */
  ghost predicate AsBase(db: map<nat, Slot>, base: map<nat, seq<nat>>, txnid: nat, last: nat) {
    forall t :: last < t < txnid ==> (t in db <==> t in base) && (t in db ==> db[t] == List(base[t]))
  }

  ghost predicate LowKeys(db: map<nat, Slot>, done: nat, headId: nat, n: nat) {
    forall t :: t in db && t <= done ==> headId <= t < headId + n
  }

  ghost predicate HasRoom(db: map<nat, Slot>, t: nat, room: nat) {
    t in db && db[t] == Room(room)
  }

  ghost predicate RoomsAt(db: map<nat, Slot>, headId: nat, rooms: seq<nat>) {
    forall j :: 0 <= j < |rooms| ==> HasRoom(db, headId + j, rooms[j])
  }

  /** The records: as committed above `done`, reserved room from headId to `done`, none below. */
  ghost predicate DbOk(db: map<nat, Slot>, base: map<nat, seq<nat>>, txnid: nat, done: nat, headId: nat,
                       rooms: seq<nat>) {
    && KeysOk(db, txnid) && AsBase(db, base, txnid, done)
    && LowKeys(db, done, headId, |rooms|) && RoomsAt(db, headId, rooms)
  }

  /** The record of this transaction lists what was in mt_free_pgs at its first freecnt places. */
  ghost predicate FreedOk(db: map<nat, Slot>, txnid: nat, freed: seq<Id>, freecnt: nat) {
    && freecnt <= |freed| && (txnid in db <==> freecnt > 0)
    && (txnid in db ==> db[txnid].List? && Lists(db[txnid].ids, freed[..freecnt]))
  }

  /** A descending list of exactly these IDs. */
  ghost predicate Lists(l: seq<nat>, ids: seq<Id>) {
    exists s: seq<Id> :: l == s && Descending(s) && multiset(s) == multiset(ids)
  }

  ghost predicate RoomsOk(done: nat, headId: nat, headRoom: nat, totalRoom: nat, rooms: seq<nat>) {
    && totalRoom == Sum(rooms)
    && if rooms == [] then headId == done && headRoom == 0
         else headRoom == rooms[0] && 1 <= headId && headId + |rooms| == done + 1
  }

  /** The first record is deleted, and more may have been fetched since. */
  lemma DeletedFirst(db: map<nat, Slot>, base: map<nat, seq<nat>>, txnid: nat, last: nat, last': nat, k: nat)
    requires KeysOk(db, txnid) && AsBase(db, base, txnid, last) && FirstKey(db, k) && last in db
    requires last <= last' < txnid
    requires last' == last || last' in base
    ensures KeysOk(db - {k}, txnid) && AsBase(db - {k}, base, txnid, last') && 1 <= k <= last
    ensures forall t :: t in db - {k} ==> t > k
    ensures k < last' ==> last' in db - {k}
    ensures k == last' ==> DbOk(db - {k}, base, txnid, k, k, [])
  {
  }

  /** The smallest key. */
  ghost predicate FirstKey(db: map<nat, Slot>, k: nat) {
    k in db && forall t :: t in db ==> k <= t
  }

  ghost predicate Above(db: map<nat, Slot>, k: nat) {
    forall t :: t in db ==> t > k
  }

  lemma FirstAbove(db: map<nat, Slot>, k: nat, done: nat)
    requires FirstKey(db, k)
    ensures Above(db - {k}, k) && (Above(db, done) ==> k > done)
  {
  }

  /** mdb_cursor_first. */
  method First(db: map<nat, Slot>) returns (k: nat)
    requires db != map[]
    ensures FirstKey(db, k)
  {
    var keys := db.Keys;
    var k0 :| k0 in keys;
    k := k0;
    keys := keys - {k};
    while keys != {}
      invariant k in db && keys <= db.Keys && forall t :: t in db ==> t in keys || k <= t
      decreases |keys|
    {
      var t :| t in keys;
      keys := keys - {t};
      if t < k { k := t; }
    }
  }

  /** A list sorted by mdb_midl_sort. */
  method Sorted(s: seq<Id>) returns (r: seq<Id>)
    requires |s| < 0x8000_0000
    ensures Descending(r) && multiset(r) == multiset(s) && |r| == |s|
  {
    var a := new Id[|s| + 1];
    a[0] := |s|;
    forall j | 0 <= j < |s| { a[j + 1] := s[j]; }
    assert Ids(a) == s;
    Sort(a);
    r := Ids(a);
    assert |multiset(r)| == |r| && |multiset(s)| == |s|;
  }

  /** One more record in front of the reserved ones, or the first one again. */
  lemma ReserveDb(db: map<nat, Slot>, base: map<nat, seq<nat>>, txnid: nat, done: nat, headId: nat, headId': nat,
                  rooms: seq<nat>, room: nat)
    requires DbOk(db, base, txnid, done, headId, rooms) && 1 <= headId' <= done < txnid
    requires headId + |rooms| == done + if rooms == [] then 0 else 1
    requires headId' == headId || (rooms != [] && headId' == headId - 1)
    ensures var added := headId' + |rooms| == done;
            (added || rooms != []) && DbOk(db[headId' := Room(room)], base, txnid, done, headId',
              PutRoom(rooms, added, room))
    ensures var added := headId' + |rooms| == done;
            headId' + |PutRoom(rooms, added, room)| == done + 1
  {
    hide Sum, DbOk, KeysOk, AsBase, LowKeys, RoomsAt;
    var added := headId' + |rooms| == done;
    var r, db' := PutRoom(rooms, added, room), db[headId' := Room(room)];
    DbParts(db, base, txnid, done, headId, rooms);
    ReserveKeys(db, base, txnid, done, headId, headId', |rooms|, |r|, room);
    ReserveRooms(db, headId, headId', rooms, r, room, added);
    DbWhole(db', base, txnid, done, headId', r);
  }

  lemma ReserveKeys(db: map<nat, Slot>, base: map<nat, seq<nat>>, txnid: nat, done: nat, headId: nat, headId': nat,
                    n: nat, n': nat, room: nat)
    requires KeysOk(db, txnid) && AsBase(db, base, txnid, done) && LowKeys(db, done, headId, n)
    requires 1 <= headId' <= headId && headId' <= done < txnid && headId + n <= headId' + n' && n' > 0
    ensures var db' := db[headId' := Room(room)];
            KeysOk(db', txnid) && AsBase(db', base, txnid, done) && LowKeys(db', done, headId', n')
  {
  }

  lemma ReserveRooms(db: map<nat, Slot>, headId: nat, headId': nat, rooms: seq<nat>, r: seq<nat>, room: nat,
                     added: bool)
    requires RoomsAt(db, headId, rooms) && (added || (rooms != [] && headId' == headId))
    requires (added && rooms != [] ==> headId' + 1 == headId)
    requires r == [room] + if added then rooms else rooms[1..]
    ensures RoomsAt(db[headId' := Room(room)], headId', r)
  {
    var db' := db[headId' := Room(room)];
    forall j | 0 <= j < |r| ensures HasRoom(db', headId' + j, r[j]) {
      if j > 0 {
        var i := if added then j - 1 else j;
        assert r[j] == rooms[i] && headId + i == headId' + j;
      }
    }
  }

  lemma FreedApart(db: map<nat, Slot>, k: nat, txnid: nat, freed: seq<Id>, more: seq<Id>, freecnt: nat)
    requires FreedOk(db, txnid, freed, freecnt) && k < txnid
    ensures FreedOk(db - {k}, txnid, freed + more, freecnt)
  {
    FreedKept(db, db - {k}, txnid, freed, more, freecnt);
  }

  lemma FreedKept(db: map<nat, Slot>, db': map<nat, Slot>, txnid: nat, freed: seq<Id>, more: seq<Id>, freecnt: nat)
    requires FreedOk(db, txnid, freed, freecnt) && (txnid in db' <==> txnid in db)
    requires (txnid in db ==> db'[txnid] == db[txnid])
    ensures FreedOk(db', txnid, freed + more, freecnt)
  {
    assert (freed + more)[..freecnt] == freed[..freecnt];
  }

  lemma RoomAt(db: map<nat, Slot>, base: map<nat, seq<nat>>, txnid: nat, done: nat, headId: nat, rooms: seq<nat>,
               j: nat)
    requires DbOk(db, base, txnid, done, headId, rooms) && j < |rooms|
    ensures headId + j in db && db[headId + j] == Room(rooms[j])
  {
    hide KeysOk, AsBase, LowKeys;
    assert HasRoom(db, headId + j, rooms[j]);
  }

  /** The record of this transaction is written. */
  lemma PutFreed(db: map<nat, Slot>, base: map<nat, seq<nat>>, txnid: nat, done: nat, headId: nat, rooms: seq<nat>,
                 r: seq<Id>, freed: seq<Id>)
    requires DbOk(db, base, txnid, done, headId, rooms) && done < txnid && (rooms == [] || headId + |rooms| == done + 1)
    requires Descending(r) && multiset(r) == multiset(freed) && |r| > 0
    ensures DbOk(db[txnid := List(r)], base, txnid, done, headId, rooms) && FreedOk(db[txnid := List(r)], txnid, r, |r|)
  {
    hide DbOk, KeysOk, AsBase, LowKeys, RoomsAt, Descending;
    DbParts(db, base, txnid, done, headId, rooms);
    PutAbove(db, base, txnid, done, headId, rooms, List(r));
    DbWhole(db[txnid := List(r)], base, txnid, done, headId, rooms);
    FreedWritten(db[txnid := List(r)], txnid, r);
  }

  lemma FreedWritten(db: map<nat, Slot>, txnid: nat, r: seq<Id>)
    requires txnid in db && db[txnid] == List(r) && Descending(r) && |r| > 0
    ensures FreedOk(db, txnid, r, |r|)
  {
    hide Descending;
    assert r[..|r|] == r;
    assert multiset(r) == multiset(r[..|r|]);
  }

  lemma DbParts(db: map<nat, Slot>, base: map<nat, seq<nat>>, txnid: nat, done: nat, headId: nat, rooms: seq<nat>)
    requires DbOk(db, base, txnid, done, headId, rooms)
    ensures KeysOk(db, txnid) && AsBase(db, base, txnid, done) && LowKeys(db, done, headId, |rooms|)
    ensures RoomsAt(db, headId, rooms)
  {
  }

  lemma DbWhole(db: map<nat, Slot>, base: map<nat, seq<nat>>, txnid: nat, done: nat, headId: nat, rooms: seq<nat>)
    requires KeysOk(db, txnid) && AsBase(db, base, txnid, done) && LowKeys(db, done, headId, |rooms|)
    requires RoomsAt(db, headId, rooms)
    ensures DbOk(db, base, txnid, done, headId, rooms)
  {
  }

  lemma PutAbove(db: map<nat, Slot>, base: map<nat, seq<nat>>, txnid: nat, done: nat, headId: nat, rooms: seq<nat>,
                 slot: Slot)
    requires KeysOk(db, txnid) && AsBase(db, base, txnid, done) && LowKeys(db, done, headId, |rooms|)
    requires RoomsAt(db, headId, rooms)
    requires done < txnid && (rooms == [] || headId + |rooms| == done + 1)
    ensures var db' := db[txnid := slot];
            KeysOk(db', txnid) && AsBase(db', base, txnid, done) && LowKeys(db', done, headId, |rooms|) &&
              RoomsAt(db', headId, rooms)
  {
    var db' := db[txnid := slot];
    forall j | 0 <= j < |rooms| ensures HasRoom(db', headId + j, rooms[j]) {
      assert HasRoom(db, headId + j, rooms[j]);
    }
    forall t | t in db' && t <= done ensures headId <= t < headId + |rooms| {
      assert t in db;
    }
  }

  // ---------------------------------------------------------------- what is in the records

  /** The lists of the records up to t, highest key first. */
  function Gather(m: map<nat, seq<nat>>, t: nat): seq<nat> {
    if t == 0 then [] else (if t in m then m[t] else []) + Gather(m, t - 1)
  }

  lemma GatherStep(m: map<nat, seq<nat>>, t: nat)
    ensures t == 0 ==> Gather(m, t) == []
    ensures t > 0 ==> Gather(m, t) == (if t in m then m[t] else []) + Gather(m, t - 1)
  {
  }

  /** Nothing is listed in records from lo to hi. */
  ghost predicate Blank(m: map<nat, seq<nat>>, lo: nat, hi: nat) {
    forall t :: t in m && lo <= t <= hi ==> m[t] == []
  }

  lemma {:induction false} GatherBlank(m: map<nat, seq<nat>>, hi: nat)
    requires Blank(m, 1, hi)
    ensures Gather(m, hi) == []
  {
    if hi > 0 { GatherBlank(m, hi - 1); }
  }

  /** Record t holds what was stored in it. */
  ghost predicate Holding(m: map<nat, seq<nat>>, t: nat, rec: seq<Id>) {
    rec != [] && t in m && m[t] == rec[1..]
  }

  /** Reading the filled records from the highest key down gives what was put into them. */
  lemma {:induction false} GatherFilled(m: map<nat, seq<nat>>, headId: nat, recs: seq<seq<Id>>, hi: nat)
    requires headId >= 1 && headId + |recs| <= hi + 1 && Blank(m, 1, headId - 1) && Blank(m, headId + |recs|, hi)
    requires forall j :: 0 <= j < |recs| ==> Holding(m, headId + j, recs[j])
    ensures Gather(m, hi) == Filled(recs)
    decreases hi
  {
    hide Filled, Gather;
    FilledStep(recs);
    GatherStep(m, hi);
    if recs == [] {
      GatherBlank(m, hi);
    } else if headId + |recs| <= hi {
      GatherFilled(m, headId, recs, hi - 1);
    } else {
      var n := |recs| - 1;
      assert recs == recs[..n] + [recs[n]] && Holding(m, headId + n, recs[n]);
      forall j | 0 <= j < n ensures Holding(m, headId + j, recs[..n][j]) { assert recs[..n][j] == recs[j]; }
      GatherFilled(m, headId, recs[..n], hi - 1);
      FilledSnoc(recs[..n], recs[n]);
    }
  }

  /** The freeDB at the end: records up to me_pglast hold me_pghead, this transaction's record the pages it freed, and
      the records between are as committed. */
  ghost predicate Recorded(m: map<nat, seq<nat>>, base: map<nat, seq<nat>>, txnid: nat, last: nat, head: seq<Id>,
                           freed: seq<Id>) {
    && last < txnid && (forall t :: t in m ==> 1 <= t <= txnid)
    && (forall t :: last < t < txnid ==> (t in m <==> t in base) && (t in m ==> m[t] == base[t]))
    && Gather(m, last) == head
    && (txnid in m <==> freed != []) && (txnid in m ==> Lists(m[txnid], freed))
  }

  /** The records once the reserved ones are filled; what was not needed stays an empty list. */
  function Final(db: map<nat, Slot>, headId: nat, recs: seq<seq<Id>>): map<nat, seq<nat>> {
    map t | t in db ::
      if db[t].List? then db[t].ids
        else if headId <= t < headId + |recs| && recs[t - headId] != [] then recs[t - headId][1..] else []
  }

  lemma FinalKeys(db: map<nat, Slot>, headId: nat, recs: seq<seq<Id>>)
    ensures Final(db, headId, recs).Keys == db.Keys
  {
  }

  lemma FinalAt(db: map<nat, Slot>, headId: nat, recs: seq<seq<Id>>, t: nat)
    requires t in db && headId <= t && db[t].Room?
    ensures t in Final(db, headId, recs)
    ensures Final(db, headId, recs)[t] ==
            if t < headId + |recs| && recs[t - headId] != [] then recs[t - headId][1..] else []
  {
  }

  lemma FinalGathers(db: map<nat, Slot>, base: map<nat, seq<nat>>, txnid: nat, done: nat, headId: nat, rooms: seq<nat>,
                     recs: seq<seq<Id>>)
    requires DbOk(db, base, txnid, done, headId, rooms) && |recs| <= |rooms|
    requires (rooms != [] ==> 1 <= headId && headId + |rooms| == done + 1)
    requires rooms == [] ==> headId == done
    requires forall k :: 0 <= k < |recs| ==> recs[k] != []
    ensures Gather(Final(db, headId, recs), done) == Filled(recs)
  {
    hide DbOk, Gather, Filled, Final, KeysOk, AsBase, RoomsAt;
    var m := Final(db, headId, recs);
    FinalKeys(db, headId, recs);
    DbParts(db, base, txnid, done, headId, rooms);
    if rooms == [] {
      GatherBlank(m, done);
      FilledStep(recs);
    } else {
      forall j | 0 <= j < |recs| ensures Holding(m, headId + j, recs[j]) {
        RoomAt(db, base, txnid, done, headId, rooms, j);
        FinalAt(db, headId, recs, headId + j);
        assert recs[j] != [];
      }
      forall t | t in m && headId + |recs| <= t <= done ensures m[t] == [] {
        RoomAt(db, base, txnid, done, headId, rooms, t - headId);
        FinalAt(db, headId, recs, t);
      }
      GatherFilled(m, headId, recs, done);
    }
  }

  lemma FinalRecorded(db: map<nat, Slot>, base: map<nat, seq<nat>>, txnid: nat, done: nat, headId: nat,
                      rooms: seq<nat>, recs: seq<seq<Id>>,
                      head: seq<Id>, freed: seq<Id>)
    requires DbOk(db, base, txnid, done, headId, rooms) && FreedOk(db, txnid, freed, |freed|) && done < txnid
    requires Gather(Final(db, headId, recs), done) == head
    ensures Recorded(Final(db, headId, recs), base, txnid, done, head, freed)
  {
    hide Gather, Lists;
    assert freed[..|freed|] == freed;
  }

  lemma NoRooms(done: nat)
    ensures RoomsOk(done, done, 0, 0, [])
  {
    hide Sum;
    SumNil();
  }

  /** mdb_freelist_save. */
  class FreelistSaver {
    const base: map<nat, seq<nat>>   // the freeDB as of the last commit
    const txnid: nat                 // mt_txnid
    const maxfree: nat               // me_maxfree_1pg
    var head: seq<Id>                // me_pghead
    var loose: seq<Id>               // mt_loose_pgs
    var last: nat                    // me_pglast
    var freed: seq<Id>               // mt_free_pgs
    var db: map<nat, Slot>           // the freeDB now
    var todo: seq<Effect>            // what the calls to come will do to the lists
    var done: nat                    // pglast: records up to here are deleted
    var headId: nat                  // lowest key reserved
    var headRoom: nat                // room of that record
    var totalRoom: nat               // room of all reserved records
    var freecnt: nat                 // how many freed pages are saved
    ghost var rooms: seq<nat>        // rooms of the records headId .. done

    /** What the loop keeps. */
    ghost predicate Book()
      reads this
    {
      && Listing() && done <= last && RoomsOk(done, headId, headRoom, totalRoom, rooms)
      && DbOk(db, base, txnid, done, headId, rooms) && FreedOk(db, txnid, freed, freecnt)
    }

    /** The lists themselves. */
    ghost predicate Listing()
      reads this`head, this`loose, this`last, this`freed, this`todo
    {
      && maxfree >= 1 && last < txnid && (last == 0 || last in base) && (head != [] || loose != [] ==> last >= 1)
      && (forall t :: t in base ==> 1 <= t < txnid) && |freed| < 0x8000_0000 && |head| + |loose| < 0x8000_0000
      && Plausible(todo, base, last, |freed|)
    }

    constructor (base: map<nat, seq<nat>>, txnid: nat, maxfree: nat, head: seq<Id>, loose: seq<Id>, last: nat,
                 freed: seq<Id>, todo: seq<Effect>)
      requires maxfree >= 1 && last < txnid && (last == 0 || last in base) && (head != [] ==> last >= 1)
      requires (forall t :: t in base ==> 1 <= t < txnid) && |freed| + |loose| < 0x8000_0000
      requires |head| + |loose| < 0x8000_0000
      requires Plausible(todo, base, last, if last == 0 then |freed| + |loose| else |freed|)
      ensures Book() && this.base == base && this.txnid == txnid && this.maxfree == maxfree && freecnt == 0
      ensures this.last == last
      ensures this.todo == todo && this.head == head
      ensures if last == 0 then this.loose == [] && this.freed == freed + loose
        else this.loose == loose && this.freed == freed
    {
      this.base, this.txnid, this.maxfree, this.head, this.last, this.todo := base, txnid, maxfree, head, last, todo;
      this.loose, this.freed := if last == 0 then [] else loose, if last == 0 then freed + loose else freed;
      this.db := map t | t in base :: List(base[t]);
      this.done, this.headId, this.headRoom, this.totalRoom, this.freecnt, this.rooms := 0, 0, 0, 0, 0, [];
    }

    ghost function Now(): Held
      reads this`head, this`loose, this`last, this`freed, this`todo
    {
      Held(head, loose, last, multiset(freed), todo)
    }

    /** The calls to come leave the lists alone. */
    ghost predicate Quiet()
      reads this`head, this`loose, this`last, this`todo
    {
      forall i :: 0 <= i < |todo| ==> todo[i] == Effect(head, loose, last, [])
    }

    /** The lists are these, and n pages are freed. */
    ghost predicate Same(h: seq<Id>, l: seq<Id>, p: nat, n: nat)
      reads this`head, this`loose, this`last, this`freed
    {
      head == h && loose == l && last == p && |freed| == n
    }

    /** A call changes the lists. */
    method Disturb()
      requires Listing() && todo != []
      modifies this`head, this`loose, this`last, this`freed, this`todo
      ensures Listing() && old(last) <= last && (last == old(last) || last in base) && todo == old(todo)[1..]
      ensures old(freed) <= freed && freed == old(freed) + old(todo)[0].more
      ensures old(Quiet()) ==> Quiet() && Same(old(head), old(loose), old(last), old(|freed|))
      ensures Follows(old(Now()), Now())
    {
      ghost var was := Now();
      var e := todo[0];
      head, loose, last, freed, todo := e.head, e.loose, e.last, freed + e.more, todo[1..];
      assert After(was, 1) == After(Now(), 0);
    }

    /** Records are to be deleted: the last one fetched is still there. */
    ghost predicate Pending()
      reads this
    {
      && Listing() && done < last && last in db && FreedOk(db, txnid, freed, freecnt)
      && KeysOk(db, txnid) && AsBase(db, base, txnid, last)
    }

    lemma BookPending()
      requires Book() && done < last
      ensures Pending()
    {
      hide Sum, FreedOk, Plausible;
    }

    /** Delete the first record; nothing is reserved then. */
    method DeleteFirst()
      requires Pending() && todo != []
      modifies this`head, this`loose, this`last, this`freed, this`todo, this`db, this`done, this`headId, this`headRoom,
               this`totalRoom, this`rooms
      ensures |todo| == old(|todo|) - 1 && if done < last then Pending() else Book() && done == last
      ensures headId == done && headRoom == 0 && totalRoom == 0
      ensures Above(db, done) && done > if old(Above(db, done)) then old(done) else 0
      ensures old(Quiet()) ==> Quiet() && Same(old(head), old(loose), old(last), old(|freed|))
      ensures Follows(old(Now()), Now())
    {
      hide Sum, FreedOk, Plausible, KeysOk, AsBase, DbOk, FirstKey, RoomsOk, Listing, Pending, Book, Quiet, Same, Above,
           After, Follows;
      PendingFacts();
      var k := First(db);
      done, headId, totalRoom, headRoom := k, k, 0, 0;
      rooms := [];
      NoRooms(k);
      ghost var was := db;
      db := db - {k};
      Disturb();
      LastBelow();
      DeletedFirst(was, base, txnid, old(last), last, k);
      FirstAbove(was, k, old(done));
      FreedApart(was, k, txnid, old(freed), old(todo)[0].more, freecnt);
      Deleted();
    }

    lemma PendingFacts()
      requires Pending()
      ensures Listing() && done < last && last in db && db != map[] && FreedOk(db, txnid, freed, freecnt)
      ensures KeysOk(db, txnid) && AsBase(db, base, txnid, last)
    {
      hide FreedOk, KeysOk, AsBase, Listing;
    }

    lemma LastBelow()
      requires Listing()
      ensures last < txnid
    {
    }

    lemma Deleted()
      requires Listing() && done <= last && FreedOk(db, txnid, freed, freecnt)
      requires KeysOk(db, txnid) && AsBase(db, base, txnid, last) && RoomsOk(done, headId, headRoom, totalRoom, rooms)
      requires rooms == [] && headId == done && (done < last ==> last in db)
      requires done == last ==> DbOk(db, base, txnid, done, done, [])
      ensures if done < last then Pending() else Book() && done == last
    {
      hide Sum, FreedOk, Plausible, KeysOk, AsBase, DbOk, Listing, RoomsOk;
    }

    ghost predicate Reserved(id: nat, room: nat, total: nat)
      reads this`headId, this`headRoom, this`totalRoom
    {
      headId == id && headRoom == room && totalRoom == total
    }

    /** Delete the records that were fetched, and those reserved for me_pghead. */
    method DeleteConsumed() returns (ok: bool)
      requires Book()
      modifies this`head, this`loose, this`last, this`freed, this`todo, this`db, this`done, this`headId, this`headRoom,
               this`totalRoom, this`rooms
      ensures ok ==> Book() && done == last
      ensures |todo| <= old(|todo|) && (!ok ==> todo == [])
      ensures ok && old(done < last) ==> headId == last && headRoom == 0 && totalRoom == 0
      ensures old(done == last) ==> ok && todo == old(todo) && Reserved(old(headId), old(headRoom), old(totalRoom))
      ensures old(Quiet()) ==> Quiet() && Same(old(head), old(loose), old(last), old(|freed|))
      ensures Follows(old(Now()), Now())
      ensures old(Quiet() && |todo| >= last) ==> ok && |todo| >= old(|todo| - last)
    {
      hide Sum, FreedOk, Plausible, DbOk, RoomsOk, Listing, Quiet, Above, Follows, Now;
      FollowsSelf(Now());
      if done < last { BookPending(); }
      while done < last
        invariant |todo| <= old(|todo|) && if done < last then Pending() else Book() && done == last
        invariant
          || (todo == old(todo) && done == old(done) && last == old(last) &&
              Reserved(old(headId), old(headRoom), old(totalRoom)))
          || (old(done < last) && Above(db, done) && old(|todo|) - |todo| <= done && Reserved(done, 0, 0))
        invariant old(Quiet()) ==> Quiet() && Same(old(head), old(loose), old(last), old(|freed|))
        invariant Follows(old(Now()), Now())
        decreases |todo|
      {
        if todo == [] { return false; }
        ghost var was := Now();
        DeleteFirst();
        FollowsOn(old(Now()), was, Now());
      }
      ok := true;
    }

    /** The put of this transaction's record, again if it freed pages itself: then the record has room for all. */
    method PutAgain() returns (ok: bool)
      requires Listing() && done <= last && |freed| > 0
      modifies this`head, this`loose, this`last, this`freed, this`todo
      ensures Listing() && done <= last && |todo| <= old(|todo|) && (!ok ==> todo == [])
      ensures ok ==> |freed| > 0 && |todo| < old(|todo|)
      ensures old(Quiet()) ==> Quiet() && Same(old(head), old(loose), old(last), old(|freed|))
      ensures old(Quiet() && |todo| >= 1) ==> ok && |todo| == old(|todo|) - 1
      ensures Follows(old(Now()), Now())
    {
      hide Sum, Plausible, Quiet, Follows;
      FollowsSelf(Now());
      var cnt := 0;
      while cnt < |freed|
        invariant Listing() && |todo| <= old(|todo|) && done <= last && cnt <= |freed| && |freed| > 0
        invariant cnt > 0 ==> |todo| < old(|todo|)
        invariant Follows(old(Now()), Now())
        invariant old(Quiet()) ==> Quiet() && Same(old(head), old(loose), old(last), old(|freed|))
        invariant old(Quiet()) ==> |todo| == old(|todo|) - (if cnt == 0 then 0 else 1) && (cnt == 0 || cnt == |freed|)
        decreases |todo|
      {
        if todo == [] { return false; }
        cnt := |freed|;
        ghost var was := Now();
        Disturb();
        FollowsOn(old(Now()), was, Now());
      }
      ok := true;
    }

    /** The pages freed by this transaction, in one record. */
    method SaveFreed() returns (ok: bool)
      requires Book() && done == last && freecnt < |freed|
      modifies this`head, this`loose, this`last, this`freed, this`todo, this`db, this`freecnt
      ensures |todo| <= old(|todo|) && (ok ==> Book() && freecnt == |freed| && |todo| < old(|todo|))
      ensures !ok ==> todo == []
      ensures old(Quiet()) ==> Quiet() && Same(old(head), old(loose), old(last), old(|freed|))
      ensures Follows(old(Now()), Now())
      ensures old(Quiet() && |todo| >= 2) ==> ok && |todo| >= old(|todo| - 2)
    {
      hide Sum, FreedOk, Plausible, DbOk, RoomsOk, Quiet, Follows, Listing, Now;
      FollowsSelf(Now());
      if freecnt == 0 {
        if todo == [] { return false; }
        Disturb();
      }
      ghost var a := Now();
      ok := PutAgain();
      FollowsOn(old(Now()), a, Now());
      if !ok { return; }
      WriteFreed();
    }

    /** The freed pages, sorted, are the record of this transaction. */
    method WriteFreed()
      requires Listing() && done <= last && RoomsOk(done, headId, headRoom, totalRoom, rooms) && |freed| > 0
      requires DbOk(db, base, txnid, done, headId, rooms)
      modifies this`freed, this`db, this`freecnt
      ensures Book() && freecnt == |freed| == old(|freed|) && Now() == old(Now())
    {
      hide Sum, FreedOk, Plausible, DbOk, RoomsOk;
      var r := Sorted(freed);
      RoomsBound(done, headId, headRoom, totalRoom, rooms);
      PutFreed(db, base, txnid, done, headId, rooms, r, freed);
      freed, db, freecnt := r, db[txnid := List(r)], |r|;
    }

    /** Reserve a record for me_pghead, or change the room of the last one reserved. */
    method ReserveMore(mopLen: nat) returns (ok: bool)
      requires Book() && done == last && totalRoom != mopLen && (totalRoom < mopLen ==> last >= 1)
      modifies this`head, this`loose, this`last, this`freed, this`todo, this`db, this`headId, this`headRoom,
               this`totalRoom, this`rooms
      ensures |todo| <= old(|todo|) && (ok ==> Book() && |todo| == old(|todo|) - 1)
      ensures ok <==> old(todo) != []
      ensures !ok ==> todo == []
      ensures old(Quiet()) ==> Quiet() && Same(old(head), old(loose), old(last), old(|freed|))
      ensures Follows(old(Now()), Now())
      ensures ok ==> Puts(mopLen, totalRoom, headId, headRoom, maxfree, old(totalRoom) < mopLen) <
                     old(Puts(mopLen, totalRoom, headId, headRoom, maxfree, true))
      ensures ok ==> headRoom <= totalRoom && RoomIs(headRoom, mopLen - (totalRoom - headRoom), headId, maxfree)
      ensures ok ==> if old(totalRoom < mopLen && headRoom >= maxfree && headId > 1)
        then headId == old(headId) - 1 && totalRoom == old(totalRoom) + headRoom
        else headId == old(headId) && totalRoom == old(totalRoom - headRoom) + headRoom
    {
      hide Sum, FreedOk, Plausible, DbOk, RoomFor, RoomsOk, Quiet, Puts, Follows;
      FollowsSelf(Now());
      if todo == [] { return false; }
      var id, kept: nat := headId, headRoom;
      if totalRoom < mopLen && headRoom >= maxfree && headId > 1 {
        id, kept := headId - 1, 0;
      }
      HeadInTotal(done, headId, headRoom, totalRoom, rooms);
      RoomsBound(done, headId, headRoom, totalRoom, rooms);
      var room := RoomFor(mopLen - (totalRoom - kept), id, maxfree);
      PutsFewer(mopLen, totalRoom, headId, headRoom, maxfree, id, kept, room);
      RoomForIs(mopLen - (totalRoom - kept), id, maxfree);
      PutRecord(id, kept, room);
      ok := true;
    }

    /** Write key id with this room; kept is the room that the record had. */
    method PutRecord(id: nat, kept: nat, room: nat)
      requires Book() && done == last && todo != [] && 1 <= id <= done && kept <= totalRoom
      requires if id == headId then kept == headRoom else id + 1 == headId && kept == 0 && rooms != []
      modifies this`head, this`loose, this`last, this`freed, this`todo, this`db, this`headId, this`headRoom,
               this`totalRoom, this`rooms
      ensures Book() && |todo| == old(|todo|) - 1
      ensures headId == id && headRoom == room && totalRoom == old(totalRoom) - kept + room
      ensures old(Quiet()) ==> Quiet() && Same(old(head), old(loose), old(last), old(|freed|))
      ensures Follows(old(Now()), Now())
    {
      hide Sum, FreedOk, Plausible, DbOk, PutRoom, RoomsOk, Quiet, Follows, Now;
      ghost var was := db;
      RoomsBound(done, headId, headRoom, totalRoom, rooms);
      ReserveDb(db, base, txnid, done, headId, id, rooms, room);
      PutRooms(done, headId, id, headRoom, kept, totalRoom, rooms, room);
      rooms := PutRoom(rooms, id + |rooms| == done, room);
      totalRoom := totalRoom - kept + room;
      headId, headRoom := id, room;
      db := db[id := Room(room)];
      Disturb();
      FreedKept(was, db, txnid, old(freed), old(todo)[0].more, freecnt);
    }

    lemma BookFacts()
      requires Book()
      ensures freecnt <= |freed| && last < txnid && |loose| < 0x8000_0000 && (|head| + |loose| > 0 ==> last >= 1)
    {
      hide Sum, DbOk, Plausible;
    }

    /** What the loop leaves. */
    ghost predicate Settled()
      reads this
    {
      && DbOk(db, base, txnid, done, headId, rooms) && FreedOk(db, txnid, freed, |freed|) && done == last < txnid
      && RoomsOk(done, headId, headRoom, totalRoom, rooms) && |head| < 0x8000_0000 && |head| <= Sum(rooms)
    }

    lemma IsSettled()
      requires DbOk(db, base, txnid, done, headId, rooms) && FreedOk(db, txnid, freed, |freed|) && done == last < txnid
      requires RoomsOk(done, headId, headRoom, totalRoom, rooms) && |head| < 0x8000_0000 && |head| <= Sum(rooms)
      ensures Settled()
    {
    }

    lemma FirstRoom()
      requires Settled()
      ensures headId in db <==> rooms != []
      ensures rooms != [] ==> headId + |rooms| == done + 1
    {
      hide Sum, FreedOk, KeysOk, AsBase;
      if rooms != [] { RoomAt(db, base, txnid, done, headId, rooms, 0); }
    }

    /** The sizes of the reserved records, lowest key first. */
    method ReadRooms() returns (r: seq<nat>)
      requires Settled()
      ensures r == rooms
    {
      hide Sum, FreedOk, DbOk;
      r := [];
      FirstRoom();
      if headId !in db { return; }
      while headId + |r| <= done
        invariant |r| <= |rooms| && r == rooms[..|r|]
      {
        RoomAt(db, base, txnid, done, headId, rooms, |r|);
        r := r + [db[headId + |r|].len];
      }
    }

    /** The last part: me_pghead is written into the records reserved for it. */
    method FillRecords() returns (saved: map<nat, seq<nat>>)
      requires Settled()
      ensures Recorded(saved, base, txnid, last, head, freed)
    {
      hide Sum, FreedOk, DbOk, Filled, Recorded, Gather;
      var r := ReadRooms();
      var recs: seq<seq<Id>> := [];
      NothingStored(r);
      if head != [] {
        var mop := new Id[|head| + 1];
        mop[0] := |head|;
        forall j | 0 <= j < |head| { mop[j + 1] := head[j]; }
        assert Ids(mop) == head;
        recs := Fill(mop, r);
      }
      FinalGathers(db, base, txnid, done, headId, rooms, recs);
      FinalRecorded(db, base, txnid, done, headId, rooms, recs, head, freed);
      saved := Final(db, headId, recs);
    }

    lemma BookSettled(h: seq<Id>)
      requires Book() && done == last && freecnt == |freed| && |h| == |head| + |loose| <= totalRoom
      ensures DbOk(db, base, txnid, done, headId, rooms) && FreedOk(db, txnid, freed, |freed|) && done == last < txnid
      ensures RoomsOk(done, headId, headRoom, totalRoom, rooms) && |h| < 0x8000_0000 && |h| <= Sum(rooms)
    {
      hide Sum, DbOk, FreedOk, Plausible;
    }

    /** How many calls are left at most when they leave the lists alone. */
    ghost function Calls(again: bool): nat
      reads this
    {
      (if done < last then 2 * last else Puts(|head| + |loose|, totalRoom, headId, headRoom, maxfree, again)) +
      if freecnt < |freed| then 2 else 0
    }

    lemma CallsAtMost(again: bool)
      requires Book()
      ensures done <= last && Calls(again) <= 2 * last + 2
      ensures done == last && (totalRoom > 0 || last >= 1) ==> headId >= 1
    {
      hide Sum, DbOk, Plausible, FreedOk, Listing;
      if done == last {
        HeadInTotal(done, headId, headRoom, totalRoom, rooms);
        RoomsBound(done, headId, headRoom, totalRoom, rooms);
      }
    }

    /** Is there room for me_pghead with the loose pages? More room than that is taken back once. */
    method CheckRoom(more: int) returns (ok: bool, enough: bool, left: int)
      requires Book() && done == last && freecnt == |freed| && 0 <= more <= 1
      modifies this`head, this`loose, this`last, this`freed, this`todo, this`db, this`headId, this`headRoom,
               this`totalRoom, this`rooms
      ensures |todo| <= old(|todo|) && (ok ==> Book() && 0 <= left <= 1) && (!ok ==> todo == [])
      ensures ok && enough ==> done == last && freecnt == |freed| && |head| + |loose| <= totalRoom
      ensures ok && !enough ==> |todo| < old(|todo|)
      ensures old(Quiet() && |todo| >= Calls(more == 1)) ==> ok && Quiet() && |todo| >= Calls(left == 1)
      ensures Follows(old(Now()), Now())
    {
      hide Book, Quiet, Follows;
      FollowsSelf(Now());
      left := more;
      BookFacts();
      CallsAtMost(true);
      var mopLen := |head| + |loose|;
      if totalRoom >= mopLen {
        if totalRoom == mopLen || left == 0 { return true, true, left; }
        left := left - 1;
      }
      ok := ReserveMore(mopLen);
      enough := false;
    }

    /** The loop over puts and deletes ends when all three agree with the lists: what was fetched is deleted, what was
        freed is saved, and there is room for me_pghead with the loose pages. */
    method Reconcile() returns (ok: bool)
      requires Book()
      modifies this
      ensures ok ==> Book() && done == last && freecnt == |freed| && |head| + |loose| <= totalRoom
      ensures !ok ==> todo == []
      ensures old(Quiet() && |todo| >= 2 * last + 2) ==> ok
      ensures Follows(old(Now()), Now())
    {
      hide Book, Sum, Settled, DbOk, FreedOk, RoomsOk, Listing, Plausible, Quiet, Follows, Now;
      FollowsSelf(Now());
      var more: int := 1;
      CallsAtMost(true);
      while true
        invariant Book() && 0 <= more <= 1
        invariant old(Quiet() && |todo| >= 2 * last + 2) ==> Quiet() && |todo| >= Calls(more == 1)
        invariant Follows(old(Now()), Now())
        decreases |todo|
      {
        CallsAtMost(true);
        ghost var a := Now();
        ok := DeleteConsumed();
        FollowsOn(old(Now()), a, Now());
        if !ok { return; }
        ghost var b := Now();
        BookFacts();
        CallsAtMost(true);
        if freecnt < |freed| {
          ok := SaveFreed();
          FollowsOn(old(Now()), b, Now());
          if !ok { return; }
          continue;
        }
        var enough;
        ok, enough, more := CheckRoom(more);
        FollowsOn(old(Now()), b, Now());
        if !ok || enough { return; }
      }
    }

    /** No page of these lists is lost: the loose ones are in me_pghead now. */
    ghost predicate AllKept(a: Held)
      reads this`head, this`last, this`freed
    {
      TakenIn(a.head, a.loose, head) && last == a.last && multiset(freed) == a.freed
    }

    /** When the loop has ended, the loose pages are merged into me_pghead, which is written into the reserved
        records. It fails only when the calls to come run out, and twice me_pglast and two more calls that leave the
        lists alone are enough. */
    method Save() returns (ok: bool, saved: map<nat, seq<nat>>)
      requires Book()
      modifies this
      ensures ok ==> Recorded(saved, base, txnid, last, head, freed) && loose == []
      ensures |todo| <= old(|todo|) && (ok ==> AllKept(After(old(Now()), old(|todo|) - |todo|)))
      ensures !ok ==> todo == []
      ensures old(Quiet() && |todo| >= 2 * last + 2) ==> ok
    {
      hide Book, Sum, Recorded, Settled, DbOk, FreedOk, RoomsOk, Listing, Merge, Plausible, Descending, Quiet,
           After;
      saved := map[];
      ok := Reconcile();
      if !ok { return; }
      BookFacts();
      var l := Sorted(loose);
      MergeMultiset(head, l);
      MergedLength(head, l);
      BookSettled(Merge(head, l));
      assert TakenIn(head, loose, Merge(head, l));
      head := Merge(head, l);
      loose := [];
      IsSettled();
      saved := FillRecords();
    }
  }

  lemma MergedLength(a: seq<Id>, b: seq<Id>)
    ensures |Merge(a, b)| == |a| + |b|
  {
    hide Merge;
    MergeMultiset(a, b);
    assert |multiset(Merge(a, b))| == |multiset(a)| + |multiset(b)|;
  }

  /** The room of the record with this key when `need` IDs are left for it and the keys below. */
  function RoomFor(need: int, id: nat, maxfree: nat): nat {
    if need > maxfree && id > 1 then Amortized(need, id, maxfree) else if need < 0 then 0 else need
  }

  /** Room where `need` more IDs are to go into this record and those below: all of it in one page or under key 1, else
      the record fills whole pages, with the fewest that give it its even share. */
  ghost predicate RoomIs(room: nat, need: int, id: nat, maxfree: nat) {
    if need > maxfree && id > 1 then FillsPages(room, maxfree) && need / id <= room <= need / id + maxfree
    else room == if need < 0 then 0 else need
  }

  lemma RoomForIs(need: int, id: nat, maxfree: nat)
    ensures RoomIs(RoomFor(need, id, maxfree), need, id, maxfree)
  {
    hide FillsPages;
    if need > maxfree && id > 1 {
      AmortizedFillsPages(need, id, maxfree);
      ShareAtMost(need / id, maxfree);
    }
  }

  lemma ShareAtMost(q: nat, maxfree: nat)
    ensures q + maxfree - q % (maxfree + 1) <= q + maxfree
  {
  }

  /** How many puts the room for mopLen IDs still takes at most; again: may room be taken back? */
  function Puts(mopLen: nat, total: nat, id: nat, room: nat, maxfree: nat, again: bool): nat {
    if total == mopLen || (total > mopLen && !again) then 0
    else if total < mopLen && room >= maxfree && id > 1 then id - 1
    else id
  }

  lemma PutsFewer(mopLen: nat, total: nat, headId: nat, headRoom: nat, maxfree: nat, id: nat, kept: nat, room: nat)
    requires headId >= 1 && total != mopLen && headRoom <= total
    requires if total < mopLen && headRoom >= maxfree && headId > 1 then id == headId - 1 && kept == 0
             else id == headId && kept == headRoom
    requires room == RoomFor(mopLen - (total - kept), id, maxfree)
    ensures Puts(mopLen, total - kept + room, id, room, maxfree, total < mopLen) <
            Puts(mopLen, total, headId, headRoom, maxfree, true)
  {
    hide Amortized;
    var need := mopLen - (total - kept);
    if need > maxfree && id > 1 { AmortizedLess(need, id, maxfree); }
  }

  lemma PutRooms(done: nat, headId: nat, id: nat, headRoom: nat, kept: nat, totalRoom: nat, rooms: seq<nat>, room: nat)
    requires RoomsOk(done, headId, headRoom, totalRoom, rooms) && 1 <= id <= done
    requires if id == headId then kept == headRoom else id + 1 == headId && kept == 0 && rooms != []
    ensures id + |rooms| == done || rooms != []
    ensures kept <= totalRoom
    ensures RoomsOk(done, id, room, totalRoom - kept + room, PutRoom(rooms, id + |rooms| == done, room))
  {
    hide Sum;
    HeadInTotal(done, headId, headRoom, totalRoom, rooms);
  }

  lemma RoomsBound(done: nat, headId: nat, headRoom: nat, totalRoom: nat, rooms: seq<nat>)
    requires RoomsOk(done, headId, headRoom, totalRoom, rooms)
    ensures if rooms == [] then headId == done && headRoom == 0 else 1 <= headId && headId + |rooms| == done + 1
  {
  }

  lemma HeadInTotal(done: nat, headId: nat, headRoom: nat, totalRoom: nat, rooms: seq<nat>)
    requires RoomsOk(done, headId, headRoom, totalRoom, rooms)
    ensures headRoom <= totalRoom && (rooms == [] ==> totalRoom == 0)
  {
  }

  // ---------------------------------------------------------------- the saved freeDB

  lemma {:induction false} GatherElems(m: map<nat, seq<nat>>, t: nat)
    requires forall u :: u in m ==> u >= 1
    ensures Elems(Gather(m, t)) == ListedUpTo(m, t)
  {
    if t > 0 {
      GatherElems(m, t - 1);
      forall p ensures p in ListedUpTo(m, t) <==> p in ListedUpTo(m, t - 1) || (t in m && p in m[t]) {
        if p in ListedUpTo(m, t) {
          var u :| u in m && u <= t && p in m[u];
          assert u <= t - 1 || u == t;
        }
      }
    }
  }

  /** No page twice in the whole: none twice in a record, and none in two. */
  lemma {:induction false} GatherApart(m: map<nat, seq<nat>>, t: nat, u: nat)
    requires NoRepeats(Gather(m, t)) && (forall v :: v in m ==> v >= 1) && u in m && u <= t
    ensures NoRepeats(m[u]) && forall v :: v in m && v <= t && v != u ==> Elems(m[u]) !! Elems(m[v])
  {
    var top := if t in m then m[t] else [];
    var rest := Gather(m, t - 1);
    assert Gather(m, t) == top + rest;
    TwoParts(top, rest);
    GatherElems(m, t - 1);
    forall v | v in m && v <= t - 1 ensures Elems(m[v]) <= Elems(rest) {
      forall p | p in m[v] ensures p in ListedUpTo(m, t - 1) { }
    }
    if u < t { GatherApart(m, t - 1, u); }
  }

  lemma TwoParts(a: seq<nat>, b: seq<nat>)
    requires NoRepeats(a + b)
    ensures NoRepeats(a) && NoRepeats(b) && Elems(a) !! Elems(b)
  {
    var s := a + b;
    forall i, j | 0 <= i < j < |a| ensures a[i] != a[j] { assert s[i] == a[i] && s[j] == a[j]; }
    forall i, j | 0 <= i < j < |b| ensures b[i] != b[j] { assert s[|a| + i] == b[i] && s[|a| + j] == b[j]; }
    forall i, j | 0 <= i < |a| && 0 <= j < |b| ensures a[i] != b[j] { assert s[i] == a[i] && s[|a| + j] == b[j]; }
  }

  /** A sorted list has the pages of the list it came from, each once. */
  lemma ListsSame(l: seq<nat>, ids: seq<Id>)
    requires Lists(l, ids) && NoRepeats(ids)
    ensures Elems(l) == Elems(ids) && NoRepeats(l)
  {
    var s: seq<Id> :| l == s && Descending(s) && multiset(s) == multiset(ids);
    forall p: Id ensures p in s <==> p in ids {
      assert p in multiset(s) <==> p in multiset(ids);
    }
    forall i, j | 0 <= i < j < |l| ensures l[i] != l[j] {
      if s[i] == s[j] {
        RepeatCount(s, i, j);
        AtMostOnce(ids, s[i]);
      }
    }
  }

  /** The clauses of SaveDone that speak of the records. */
  lemma RecordsDone(m: map<nat, seq<nat>>, base: map<nat, seq<nat>>, txnid: nat, last: nat, head: seq<Id>,
                    freed: seq<Id>)
    requires Recorded(m, base, txnid, last, head, freed) && NoRepeats(head) && NoRepeats(freed) && ListsApart(base)
    requires txnid >= 1
    requires Elems(head) !! ListedAbove(base, last) && Elems(head) !! Elems(freed)
    requires ListedAbove(base, last) !! Elems(freed)
    ensures ListsApart(m) && ListedUpTo(m, last) == Elems(head) && ListedAbove(m, txnid - 1) == Elems(freed)
  {
    hide Gather, Lists, NoRepeats;
    GatherElems(m, last);
    if txnid in m { ListsSame(m[txnid], freed); }
    forall p ensures p in ListedAbove(m, txnid - 1) <==> p in Elems(freed) { }
    forall t | t in m ensures NoRepeats(m[t]) {
      RecordAlone(m, base, txnid, last, head, freed, t);
    }
    forall t, u | t in m && u in m && t != u ensures Elems(m[t]) !! Elems(m[u]) {
      RecordZone(m, base, txnid, last, head, freed, t);
      RecordZone(m, base, txnid, last, head, freed, u);
      if t <= last && u <= last {
        GatherApart(m, last, t);
      } else {
        assert last < t < txnid && last < u < txnid ==> Elems(base[t]) !! Elems(base[u]);
      }
    }
  }

  lemma RecordAlone(m: map<nat, seq<nat>>, base: map<nat, seq<nat>>, txnid: nat, last: nat, head: seq<Id>,
                    freed: seq<Id>, t: nat)
    requires Recorded(m, base, txnid, last, head, freed) && NoRepeats(head) && NoRepeats(freed) && ListsApart(base)
    requires t in m
    ensures NoRepeats(m[t])
  {
    hide Gather, Lists, NoRepeats;
    if t <= last { GatherApart(m, last, t); } else if t == txnid { ListsSame(m[txnid], freed); }
  }

  /** Which pages a record can list. */
  lemma RecordZone(m: map<nat, seq<nat>>, base: map<nat, seq<nat>>, txnid: nat, last: nat, head: seq<Id>,
                   freed: seq<Id>, t: nat)
    requires Recorded(m, base, txnid, last, head, freed) && NoRepeats(freed) && t in m
    ensures t <= last ==> Elems(m[t]) <= Elems(head)
    ensures last < t < txnid ==> t in base && m[t] == base[t] && Elems(m[t]) <= ListedAbove(base, last)
    ensures t > last ==> t <= txnid
    ensures t == txnid ==> Elems(m[t]) == Elems(freed)
  {
    hide Gather, Lists, NoRepeats;
    GatherElems(m, last);
    forall p | p in m[t] && t <= last ensures p in Elems(head) { assert p in ListedUpTo(m, last); }
    if t == txnid { ListsSame(m[txnid], freed); }
  }

  /** When the freeDB tree holds the saved records, the transaction is ready to be written out. */
  lemma SavedIsDone(s: State, m: map<nat, seq<nat>>, head: seq<Id>, freed: seq<Id>)
    requires Inv(s) && s.writer.Some? && s.latest in s.snaps
    requires var w := s.writer.value;
             && w.phase == Running && w.hand == {} && w.loose == {} && FreeRecords(w.free) == m
             && Elems(head) == w.head && NoRepeats(head) && Elems(freed) == w.freePgs && NoRepeats(freed)
             && Recorded(m, LatestRecords(s), s.latest + 1, w.last, head, freed)
    ensures SaveDone(s, s.writer.value) && Enabled(s, Write(Save))
  {
    hide Inv, Gather, Lists, NoRepeats, ListsApart, LatestRecords, FreeRecords, Recorded, ListedAbove, ListedUpTo,
         Elems, Live, SnapPages,
         Span;
    var w := s.writer.value;
    RecordsFacts(s);
    WriterListsApart(s);
    RecordsDone(m, LatestRecords(s), s.latest + 1, w.last, head, freed);
    RecordsKept(m, LatestRecords(s), s.latest, w.last, head, freed);
  }

  lemma RecordsKept(m: map<nat, seq<nat>>, base: map<nat, seq<nat>>, latest: nat, last: nat, head: seq<Id>,
                    freed: seq<Id>)
    requires Recorded(m, base, latest + 1, last, head, freed)
    ensures forall t :: t in m ==> 1 <= t <= latest + 1
    ensures forall t :: last < t <= latest ==> (t in m <==> t in base) && (t in m ==> m[t] == base[t])
  {
    hide Gather, Lists;
  }

  lemma WriterListsApart(s: State)
    requires Inv(s) && s.writer.Some? && s.latest in s.snaps
    ensures var w := s.writer.value;
            var listed := ListedAbove(LatestRecords(s), w.last);
            w.head !! listed && w.head !! w.freePgs && listed !! w.freePgs
  {
    WriterFacts(s);
    hide Inv, TreesOk, Shielded, LatestRecords, SaveDone, ListedAbove, TreePages;
  }
}
