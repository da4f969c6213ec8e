/** mdb_freelist_save: records are reserved in the freeDB for me_pghead, then filled with it. */
module FreelistSave {
  import opened Idl
  import opened Seqs

  /** A record for part of a long list: its share, rounded up so that length word and IDs fill whole pages. */
  function Amortized(room: nat, id: nat, maxfree: nat): (r: nat)
    requires id > 0
  {
    room / id + maxfree - room / id % (maxfree + 1)
  }

  ghost predicate FillsPages(room: nat, maxfree: nat) {
    room >= maxfree && (room + 1) % (maxfree + 1) == 0
  }

  lemma AmortizedFillsPages(room: nat, id: nat, maxfree: nat)
    requires id > 0
    ensures FillsPages(Amortized(room, id, maxfree), maxfree) && Amortized(room, id, maxfree) >= room / id
  {
    var q, m := room / id, maxfree + 1;
    ModIs(q, q / m, m, q % m);
    assert (q / m + 1) * m == q / m * m + m;
    ModIs(q - q % m + m, q / m + 1, m, 0);
  }

  /** Quotient and remainder are unique. */
  lemma ModIs(x: nat, q: nat, m: nat, r: nat)
    requires r < m && x == q * m + r
    ensures x % m == r
  {
    var d := x / m;
    assert x == d * m + x % m;
    assert (d + 1) * m == d * m + m && (q + 1) * m == q * m + m;
    if q > d { MulLe(d + 1, q, m); } else if q < d { MulLe(q + 1, d, m); }
  }

  /** The share of one record is less than what is left for all. */
  lemma AmortizedLess(need: nat, id: nat, maxfree: nat)
    requires id >= 2 && need > maxfree
    ensures maxfree <= Amortized(need, id, maxfree) < need
  {
    HalfAtMost(need, id);
    AmortizedFrom(need / id, maxfree, need);
  }

  lemma HalfAtMost(need: nat, id: nat)
    requires id >= 2
    ensures 2 * (need / id) <= need
  {
    var q := need / id;
    assert need == id * q + need % id;
    MulLe(2, id, q);
  }

  lemma AmortizedFrom(q: nat, maxfree: nat, need: nat)
    requires 2 * q <= need && need > maxfree
    ensures maxfree <= q + maxfree - q % (maxfree + 1) < need
  {
    if q < maxfree + 1 { ModIs(q, 0, maxfree + 1, q); }
  }

  lemma SumCons(x: nat, s: seq<nat>)
    ensures Sum([x] + s) == x + Sum(s)
  {
    assert ([x] + s)[1..] == s;
  }

  /** rooms[j] is the room of the record with key headId + j, up to pglast; all but the first fill whole pages. */
  ghost predicate Reserved(rooms: seq<nat>, headId: nat, pglast: nat, maxfree: nat) {
    && headId + |rooms| == pglast + 1
    && forall j :: 1 <= j < |rooms| ==> FillsPages(rooms[j], maxfree)
  }

  /** The reservation loop while the puts leave the lists as they are: it ends, with keys from 1 to pglast and room
      for exactly the IDs there are; every record but the one with the lowest key fills whole pages. */
  method Reserve(mopLen: nat, maxfree: nat, pglast: nat) returns (rooms: seq<nat>, headId: nat)
    requires maxfree >= 1 && (mopLen > 0 ==> pglast >= 1)
    ensures Sum(rooms) == mopLen
    ensures if mopLen == 0 then rooms == [] else 1 <= headId <= pglast && Reserved(rooms, headId, pglast, maxfree)
  {
    hide Sum, FillsPages, Amortized;
    var more, headRoom: int, totalRoom: int := 1, 0, 0;
    headId := pglast;
    rooms := [];
    SumNil();
    while true
      invariant 0 <= more <= 1 && totalRoom == Sum(rooms) <= mopLen
      invariant if rooms == [] then headId == pglast && headRoom == 0
                else mopLen > 0 && 1 <= headId && headRoom == rooms[0] && Reserved(rooms, headId, pglast, maxfree)
      invariant rooms != [] && totalRoom < mopLen ==> headId > 1 && FillsPages(rooms[0], maxfree) && headRoom >= maxfree
      decreases more, headId, if totalRoom == mopLen then 0 else if rooms != [] then 1 else 2
    {
      if totalRoom >= mopLen {
        if totalRoom == mopLen { break; }
        more := more - 1;
        if more < 0 { break; }
      } else if headRoom >= maxfree && headId > 1 {
        headId := headId - 1;
        headRoom := 0;
      }
      totalRoom := totalRoom - headRoom;
      headRoom := mopLen - totalRoom;
      if headRoom > maxfree && headId > 1 {
        AmortizedFillsPages(headRoom, headId, maxfree);
        AmortizedLess(headRoom, headId, maxfree);
        headRoom := Amortized(headRoom, headId, maxfree);
      } else if headRoom < 0 {
        headRoom := 0;
      }
      rooms := PutRoom(rooms, headId + |rooms| == pglast, headRoom);
      totalRoom := totalRoom + headRoom;
    }
  }

  /** The put of a record's room: a new record before the others, or the first one again. */
  function PutRoom(rooms: seq<nat>, added: bool, room: nat): (r: seq<nat>)
    requires added || rooms != []
    ensures Sum(r) + (if added then 0 else rooms[0]) == Sum(rooms) + room
    ensures r == [room] + if added then rooms else rooms[1..]
  {
    if added then
      SumCons(room, rooms);
      [room] + rooms
    else
      SumCons(room, rooms[1..]);
      SumCons(rooms[0], rooms[1..]);
      assert rooms == [rooms[0]] + rooms[1..];
      [room] + rooms[1..]
  }

  lemma SumNil()
    ensures Sum([]) == 0
  {
  }

  // ---------------------------------------------------------------- filling

  /** What readers of the records get, lowest key last: each record is a length and that many IDs. */
  function Filled(recs: seq<seq<Id>>): seq<Id> {
    if recs == [] then [] else Filled(recs[1..]) + if recs[0] == [] then [] else recs[0][1..]
  }

  lemma FilledStep(recs: seq<seq<Id>>)
    ensures recs == [] ==> Filled(recs) == []
    ensures recs != [] && recs[0] != [] ==> Filled(recs) == Filled(recs[1..]) + recs[0][1..]
    ensures recs != [] && recs[0] == [] ==> Filled(recs) == Filled(recs[1..])
  {
  }

  lemma {:induction false} FilledSnoc(recs: seq<seq<Id>>, r: seq<Id>)
    requires r != []
    ensures Filled(recs + [r]) == r[1..] + Filled(recs)
  {
    hide Filled;
    var all := recs + [r];
    FilledStep(recs);
    FilledStep(all);
    if recs == [] {
      FilledStep(all[1..]);
    } else {
      FilledSnoc(recs[1..], r);
      assert all[1..] == recs[1..] + [r];
    }
  }

  /** One more chunk in front of those that are stored. */
  lemma ChunkStored(a: seq<Id>, recs: seq<seq<Id>>, rec: seq<Id>, at: nat, len: nat, end: nat)
    requires at + len <= end < |a| && rec == [len] + a[at + 1..at + len + 1] && Filled(recs) == a[at + len + 1..end + 1]
    ensures Filled(recs + [rec]) == a[at + 1..end + 1]
  {
    hide Filled;
    FilledSnoc(recs, rec);
    assert rec[1..] + a[at + len + 1..end + 1] == a[at + 1..end + 1];
  }

  /** Each record is a length and that many IDs, and fits its room; all but the last one written fill theirs. */
  ghost predicate InRooms(recs: seq<seq<Id>>, rooms: seq<nat>) {
    && |recs| <= |rooms|
    && (forall k :: 0 <= k < |recs| ==> recs[k] != [] && recs[k][0] == |recs[k]| - 1 <= rooms[k])
    && forall k :: 0 <= k < |recs| - 1 ==> |recs[k]| - 1 == rooms[k]
  }

  ghost predicate LastFull(recs: seq<seq<Id>>, rooms: seq<nat>) {
    recs == [] || (|recs| <= |rooms| && |recs[|recs| - 1]| - 1 == rooms[|recs| - 1])
  }

  lemma InRoomsSnoc(recs: seq<seq<Id>>, rec: seq<Id>, rooms: seq<nat>)
    requires InRooms(recs, rooms) && LastFull(recs, rooms) && |recs| < |rooms|
    requires rec != [] && rec[0] == |rec| - 1 <= rooms[|recs|]
    ensures InRooms(recs + [rec], rooms) && (|rec| - 1 == rooms[|recs|] ==> LastFull(recs + [rec], rooms))
  {
  }

  lemma NothingStored(rooms: seq<nat>)
    ensures InRooms([], rooms) && LastFull([], rooms) && Filled([]) == [] && rooms[0..] == rooms
  {
  }

  /** The fill loop: the slot before each chunk of me_pghead holds the chunk's length during the put. */
  method Fill(mop: array<Id>, rooms: seq<nat>) returns (recs: seq<seq<Id>>)
    requires IsIdl(mop) && 0 < mop[0] <= Sum(rooms)
    modifies mop
    ensures mop[..] == old(mop[..])
    ensures InRooms(recs, rooms) && Filled(recs) == Ids(mop) && recs != [] && |recs[|recs| - 1]| > 1
  {
    hide Sum, Filled, InRooms, LastFull;
    ghost var a := mop[..];
    var mopLen := mop[0];
    var at := mopLen;
    recs := [];
    NothingStored(rooms);
    while |recs| < |rooms|
      invariant |recs| <= |rooms| && at == mopLen <= a[0] && mop[..] == a && 0 < mopLen <= Sum(rooms[|recs|..])
      invariant Filled(recs) == a[at + 1..a[0] + 1] && InRooms(recs, rooms) && LastFull(recs, rooms)
    {
      var room := rooms[|recs|];
      SumHead(rooms, |recs|);
      var len := if room > mopLen then mopLen else room;
      at := at - len;
      var rec := Store(mop, at, len);
      ChunkStored(a, recs, rec, at, len, a[0]);
      InRoomsSnoc(recs, rec, rooms);
      recs := recs + [rec];
      mopLen := mopLen - len;
      if mopLen == 0 { break; }
    }
    NoRoomLeft(rooms);
  }

  lemma NoRoomLeft(rooms: seq<nat>)
    ensures Sum(rooms[|rooms|..]) == 0
  {
  }

  /** One put: slot `at` is borrowed for the length. */
  method Store(mop: array<Id>, at: nat, len: nat) returns (rec: seq<Id>)
    requires at + len < mop.Length <= MAX_ID
    modifies mop
    ensures mop[..] == old(mop[..])
    ensures rec == [len] + mop[at + 1..at + len + 1]
  {
    var save := mop[at];
    mop[at] := len;
    rec := mop[at..at + len + 1];
    mop[at] := save;
  }
}
