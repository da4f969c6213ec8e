/** The reader table and the page allocator as code, each change tied to steps of the environment's state machine. */
module Env {
  import opened Idl
  import opened IdlPages
  import opened IdlSort
  import opened IdlGrow
  import opened Pages
  import opened Mvcc
  import opened MvccProof
  import opened MvccRuns

  /** Page numbers and their lists stay far below 32-bit counts. */
  const MAX_PAGES: nat := 0x3FFF_FFFF

  /** A freeDB record: transaction ID and page list, highest page first. */
  datatype Rec = Rec(txn: nat, ids: seq<Id>)

  datatype AllocResult = Page(pgno: nat) | TxnFull | MapFull

  // ---------------------------------------------------------------- traces

  /** Consecutive states. */
  ghost predicate IsTrace(tr: seq<State>, s: State, r: State) {
    tr != [] && tr[0] == s && tr[|tr| - 1] == r && forall i :: 0 <= i < |tr| - 1 ==> Step(tr[i], tr[i + 1])
  }

  lemma TraceSnoc(tr: seq<State>, s: State, q: State, r: State)
    requires IsTrace(tr, s, q) && Step(q, r)
    ensures IsTrace(tr + [r], s, r)
  {
    hide Step;
    var t := tr + [r];
    forall i | 0 <= i < |t| - 1 ensures Step(t[i], t[i + 1]) {
      if i < |tr| - 1 { assert t[i] == tr[i] && t[i + 1] == tr[i + 1]; }
    }
  }

  /** What the code does from a state of a run is more of the run. */
  lemma RunExtended(run: seq<State>, tr: seq<State>, r: State)
    requires IsRun(run) && IsTrace(tr, run[|run| - 1], r)
    ensures tr != [] && IsRun(run + tr[1..]) && (run + tr[1..])[|run + tr[1..]| - 1] == r
  {
    hide Step;
    var all := run + tr[1..];
    forall i | 0 <= i < |all| - 1 ensures Step(all[i], all[i + 1]) {
      if i < |run| - 1 {
        assert all[i] == run[i] && all[i + 1] == run[i + 1];
      } else {
        assert all[i] == tr[i - (|run| - 1)] && all[i + 1] == tr[i - (|run| - 1) + 1];
      }
    }
  }

  lemma StepBy(s: State, a: Action)
    requires Enabled(s, a)
    ensures Step(s, Apply(s, a))
  {
    hide Enabled, Apply;
  }

  // ---------------------------------------------------------------- concrete and abstract lists

  function IdSet(s: seq<Id>): set<nat> {
    set x | x in s
  }

  lemma {:induction false} StrictLength(s: seq<Id>, bound: nat)
    requires StrictlyDescending(s) && forall x :: x in s ==> x < bound
    ensures |s| <= bound
  {
    if s != [] {
      StrictGap(s, 0, |s| - 1);
      assert s[0] in s;
    }
  }

  /** The records are in key order, and are those of the last commit's freeDB. */
  ghost predicate RecsMatch(recs: seq<Rec>, m: map<nat, seq<nat>>) {
    && (forall i, j :: 0 <= i < j < |recs| ==> recs[i].txn < recs[j].txn)
    && (forall i :: 0 <= i < |recs| ==>
         StrictlyDescending(recs[i].ids) && recs[i].txn in m && m[recs[i].txn] == recs[i].ids)
    && (forall t :: t in m ==> exists i :: 0 <= i < |recs| && recs[i].txn == t)
  }

  /** First record with key >= lo, if any. */
  method SeekRecord(recs: seq<Rec>, lo: nat) returns (k: nat)
    ensures k <= |recs| && (k < |recs| ==> recs[k].txn >= lo) && forall i :: 0 <= i < k ==> recs[i].txn < lo
  {
    k := 0;
    while k < |recs| && recs[k].txn < lo
      invariant k <= |recs| && forall i :: 0 <= i < k ==> recs[i].txn < lo
    {
      k := k + 1;
    }
  }

  lemma SeekIsNext(recs: seq<Rec>, m: map<nat, seq<nat>>, last: nat, k: nat)
    requires RecsMatch(recs, m) && k < |recs| && recs[k].txn >= last + 1
    requires forall i :: 0 <= i < k ==> recs[i].txn < last + 1
    ensures NextRecord(m, last, recs[k].txn) && m[recs[k].txn] == recs[k].ids && StrictlyDescending(recs[k].ids)
  {
    forall u | u in m && last < u ensures recs[k].txn <= u {
      var i :| 0 <= i < |recs| && recs[i].txn == u;
      assert i >= k;
    }
  }

  // ---------------------------------------------------------------- what a search for pages finds

  /** The last position up to e at which a run of num pages ends; 0 when there is none. */
  ghost function LastRun(s: seq<Id>, e: nat, num: nat): (i: nat)
    ensures i <= e && (i != 0 ==> RunEndsAt(s, i, num)) && forall j :: i < j <= e ==> !RunEndsAt(s, j, num)
  {
    if e == 0 then 0 else if RunEndsAt(s, e, num) then e else LastRun(s, e - 1, num)
  }

  /** Index of the first record after transaction `last`. */
  function FirstAfter(recs: seq<Rec>, last: nat): (k: nat)
    ensures k <= |recs| && (k < |recs| ==> recs[k].txn > last) && forall i :: 0 <= i < k ==> recs[i].txn <= last
  {
    if recs == [] || recs[0].txn > last then 0
    else
      var k := FirstAfter(recs[1..], last);
      assert forall i :: 1 <= i < k + 1 ==> recs[i] == recs[1..][i - 1];
      k + 1
  }

  /** me_pghead after the search, the index of the first record not fetched, and where the run ends, 0 without one. */
  datatype Finding = Finding(head: seq<Id>, k: nat, i: nat)

  /** The search: the list as it is, then with one more record at a time, as long as records are older than `limit`;
      after retry + 1 searches in vain it gives up. */
  ghost function Searched(recs: seq<Rec>, head: seq<Id>, k: nat, limit: nat, num: nat, retry: nat): (g: Finding)
    requires k <= |recs|
    ensures g.i <= |g.head| && k <= g.k <= |recs|
    decreases |recs| - k
  {
    var i := LastRun(head, |head|, num);
    if i != 0 || (|head| >= num && retry == 0) || k == |recs| || recs[k].txn >= limit then Finding(head, k, i)
    else
      Searched(recs, Merge(head, recs[k].ids), k + 1, limit, num, if |head| >= num then retry - 1 else retry)
  }

  ghost predicate HasNoRun(head: seq<Id>, num: nat) {
    forall j :: 0 <= j <= |head| ==> !RunEndsAt(head, j, num)
  }

  /** A search that ends without a run: the list has none, and either no record is left that is old enough, or the list
      was long enough, without a run, retry + 1 times, each time with one more record. */
  lemma {:induction false} SearchedInVain(recs: seq<Rec>, head: seq<Id>, k: nat, limit: nat, num: nat, retry: nat)
    requires k <= |recs|
    ensures var g := Searched(recs, head, k, limit, num, retry);
            && k <= g.k <= |recs|
            && (g.i == 0 ==>
                  && HasNoRun(g.head, num)
                  && (g.k - k >= retry || g.k == |recs| || recs[g.k].txn >= limit))
            && (g.i != 0 ==>
                  && RunEndsAt(g.head, g.i, num)
                  && forall j :: g.i < j <= |g.head| ==> !RunEndsAt(g.head, j, num))
    decreases |recs| - k
  {
    var i := LastRun(head, |head|, num);
    if !(i != 0 || (|head| >= num && retry == 0) || k == |recs| || recs[k].txn >= limit) {
      SearchedInVain(recs, Merge(head, recs[k].ids), k + 1, limit, num, if |head| >= num then retry - 1 else retry);
    }
  }

  /** For a single page: in vain only when the list is empty and every record older than the limit has been fetched. */
  lemma {:induction false} OnePageInVain(recs: seq<Rec>, head: seq<Id>, k: nat, limit: nat, retry: nat)
    requires k <= |recs|
    ensures var g := Searched(recs, head, k, limit, 1, retry);
            && k <= g.k <= |recs|
            && (g.i == 0 ==> g.head == [] && (g.k == |recs| || recs[g.k].txn >= limit))
    decreases |recs| - k
  {
    if head != [] {
      assert RunEndsAt(head, |head|, 1);
    } else if k < |recs| && recs[k].txn < limit {
      OnePageInVain(recs, Merge(head, recs[k].ids), k + 1, limit, retry);
    }
  }

  /** The list after records k to j are merged into it. */
  function HeadAfter(recs: seq<Rec>, head: seq<Id>, k: nat, j: nat): seq<Id>
    requires k <= j <= |recs|
    decreases j - k
  {
    if k == j then head else HeadAfter(recs, Merge(head, recs[k].ids), k + 1, j)
  }

  /** The records are fetched one after the other, and none once the list has a run. */
  lemma {:induction false} SearchedNoFurther(recs: seq<Rec>, head: seq<Id>, k: nat, limit: nat, num: nat, retry: nat)
    requires k <= |recs|
    ensures var g := Searched(recs, head, k, limit, num, retry);
            && k <= g.k <= |recs| && g.head == HeadAfter(recs, head, k, g.k)
            && forall j :: k <= j < g.k ==> HasNoRun(HeadAfter(recs, head, k, j), num)
    decreases |recs| - k
  {
    hide Merge;
    var i := LastRun(head, |head|, num);
    if !(i != 0 || (|head| >= num && retry == 0) || k == |recs| || recs[k].txn >= limit) {
      var next := Merge(head, recs[k].ids);
      SearchedNoFurther(recs, next, k + 1, limit, num, if |head| >= num then retry - 1 else retry);
      var g := Searched(recs, head, k, limit, num, retry);
      forall j | k <= j < g.k ensures HasNoRun(HeadAfter(recs, head, k, j), num) {
        if j > k { assert HeadAfter(recs, head, k, j) == HeadAfter(recs, next, k + 1, j); }
      }
    }
  }

  /** Only records that every reader has left behind are fetched. */
  lemma {:induction false} SearchedOld(recs: seq<Rec>, head: seq<Id>, k: nat, limit: nat, num: nat, retry: nat)
    requires k <= |recs|
    ensures var g := Searched(recs, head, k, limit, num, retry);
            k <= g.k <= |recs| && forall j :: k <= j < g.k ==> recs[j].txn < limit
    decreases |recs| - k
  {
    var i := LastRun(head, |head|, num);
    if !(i != 0 || (|head| >= num && retry == 0) || k == |recs| || recs[k].txn >= limit) {
      SearchedOld(recs, Merge(head, recs[k].ids), k + 1, limit, num, if |head| >= num then retry - 1 else retry);
    }
  }

  /** One round of the search. */
  lemma SearchedStep(recs: seq<Rec>, head: seq<Id>, k: nat, limit: nat, num: nat, retry: nat)
    requires k <= |recs| && num >= 1
    ensures var i, g := LastRun(head, |head|, num), Searched(recs, head, k, limit, num, retry);
            && (i != 0 ==> |head| >= num && g == Finding(head, k, i))
            && (i == 0 && ((|head| >= num && retry == 0) || k == |recs| || recs[k].txn >= limit) ==>
                 g == Finding(head, k, 0))
            && (i == 0 && !(|head| >= num && retry == 0) && k < |recs| && recs[k].txn < limit ==>
                  g == Searched(recs, Merge(head, recs[k].ids), k + 1, limit, num,
                                if |head| >= num then retry - 1 else retry))
  {
    hide Merge;
  }

  /** me_pglast after records k0 to k were fetched. */
  function LastKey(recs: seq<Rec>, k0: nat, k: nat, last: nat): nat
    requires k <= |recs|
  {
    if k > k0 then recs[k - 1].txn else last
  }

  /** What the allocator does with what was found: the run leaves me_pghead, or the file grows if the map has room. */
  ghost predicate Allocated(g: Finding, num: nat, maxpg: nat, next: nat, r: AllocResult, head: seq<Id>, next': nat) {
    if g.i != 0 then
      && num <= g.i <= |g.head| && r == AllocResult.Page(g.head[g.i - 1])
      && head == WithoutRun(g.head, g.i, num) && next' == next
    else
      && head == g.head
      && if next + num >= maxpg then r == MapFull && next' == next
           else r == AllocResult.Page(next) && next' == next + num
  }

  /** The first loose page is in use again. */
  predicate Reused(loose: seq<nat>, loose': seq<nat>) {
    loose != [] && loose' == loose[1..]
  }

  /** me_pglast is the key of the last record fetched. */
  ghost predicate Fetched(recs: seq<Rec>, last: nat, last': nat, g: Finding) {
    var k := FirstAfter(recs, last);
    k <= g.k <= |recs| && last' == LastKey(recs, k, g.k, last)
  }

  lemma AllocatedFacts(g: Finding, num: nat, maxpg: nat, next: nat, r: AllocResult, head: seq<Id>, next': nat)
    requires Allocated(g, num, maxpg, next, r, head, next')
    ensures !r.TxnFull? && (r.MapFull? ==> next + num >= maxpg && g.i == 0) && (next' == next || next' == next + num)
    ensures g.i <= |g.head| && r == if g.i != 0 then AllocResult.Page(g.head[g.i - 1])
                                     else if next + num >= maxpg then MapFull else AllocResult.Page(next)
  {
  }

  /** The search under way, `done` the first record not fetched: what is left to do finds g. */
  ghost predicate Searching(recs: seq<Rec>, head: seq<Id>, last: nat, k0: nat, last0: nat, done: nat, limit: nat,
                            num: nat, retry: int, g: Finding) {
    && k0 <= done <= |recs| && (forall j :: 0 <= j < done ==> recs[j].txn <= last)
    && (done < |recs| ==> recs[done].txn > last) && last == LastKey(recs, k0, done, last0)
    && retry >= 0 && num >= 1 && Searched(recs, head, done, limit, num, retry) == g
  }

  lemma SearchStarts(recs: seq<Rec>, head: seq<Id>, last: nat, limit: nat, num: nat)
    requires num >= 1
    ensures var k := FirstAfter(recs, last);
            Searching(recs, head, last, k, last, k, limit, num, num * 60, Searched(recs, head, k, limit, num, num * 60))
  {
    hide Searched, Merge;
  }

  lemma SearchEnds(recs: seq<Rec>, head: seq<Id>, last: nat, k0: nat, last0: nat, done: nat, limit: nat, num: nat,
                   retry: int, g: Finding)
    requires Searching(recs, head, last, k0, last0, done, limit, num, retry, g)
    ensures done <= |recs| && (forall j :: 0 <= j < done ==> recs[j].txn <= last)
    ensures (done < |recs| ==> recs[done].txn > last)
    ensures k0 <= g.k <= |recs| && retry >= 0
    ensures var i := LastRun(head, |head|, num);
            i != 0 || (|head| >= num && retry == 0) || done == |recs| || recs[done].txn >= limit ==>
              g == Finding(head, done, i) && last == LastKey(recs, k0, g.k, last0)
  {
    hide LastRun, Merge;
    SearchedStep(recs, head, done, limit, num, retry);
    SearchedOld(recs, head, done, limit, num, retry);
  }

  lemma SearchGoesOn(recs: seq<Rec>, head: seq<Id>, last: nat, k0: nat, last0: nat, done: nat, limit: nat, num: nat,
                     retry: int, retry': int, g: Finding)
    requires Searching(recs, head, last, k0, last0, done, limit, num, retry, g)
    requires forall i, j :: 0 <= i < j < |recs| ==> recs[i].txn < recs[j].txn
    requires LastRun(head, |head|, num) == 0 && done < |recs| && recs[done].txn < limit
    requires retry' == (if |head| >= num then retry - 1 else retry) && retry' >= 0
    ensures Searching(recs, Merge(head, recs[done].ids), recs[done].txn, k0, last0, done + 1, limit, num, retry', g)
  {
    hide LastRun, Merge;
    SearchedStep(recs, head, done, limit, num, retry);
  }

  // ---------------------------------------------------------------- what the steps do to the writer

  /** The writer's allocator state. */
  ghost predicate Holds(s: State, head: seq<Id>, last: nat, loose: seq<nat>, next: nat) {
    && s.writer.Some? && s.writer.value.phase == Running
    && s.writer.value.head == IdSet(head) && s.writer.value.last == last
    && s.writer.value.loose == Elems(loose) && s.writer.value.next == next
  }

  /** Commits and readers are as they were. */
  ghost predicate CommitsKept(s: State, r: State) {
    r.latest == s.latest && r.snaps == s.snaps && r.readers == s.readers && r.metas == s.metas
  }

  /** So are the file, the writer's trees, its dirty pages and mt_free_pgs. */
  ghost predicate SameBase(s: State, r: State) {
    && CommitsKept(s, r) && r.disk == s.disk && r.stable == s.stable
    && s.writer.Some? && r.writer.Some?
    && var w, v := s.writer.value, r.writer.value;
       v.free == w.free && v.main == w.main && v.mem == w.mem && v.freePgs == w.freePgs && w.owned <= v.owned
  }

  lemma FetchStep(s: State, head: seq<Id>, last: nat, loose: seq<nat>, next: nat, ids: seq<Id>, t: nat)
    requires Inv(s) && Holds(s, head, last, loose, next) && s.latest in s.snaps
    requires NextRecord(LatestRecords(s), last, t) && LatestRecords(s)[t] == ids && t < s.oldest
    ensures Enabled(s, Write(Fetch(t)))
    ensures var r := Apply(s, Write(Fetch(t)));
            SameBase(s, r) && r.oldest == s.oldest && Holds(r, Merge(head, ids), t, loose, next) &&
              r.writer.value.hand == s.writer.value.hand
  {
    hide Inv, LatestRecords, NextRecord;
    forall x ensures x in IdSet(Merge(head, ids)) <==> x in IdSet(head) + Elems(ids) {
      if 0 <= x <= MAX_ID { MergeMembers(head, ids, x); }
    }
    assert IdSet(Merge(head, ids)) == IdSet(head) + Elems(ids);
  }

  lemma BeginShape(s: State)
    requires s.writer == None && s.latest in s.snaps
    ensures Enabled(s, BeginWrite)
    ensures var r := Apply(s, BeginWrite);
            CommitsKept(s, r) && r.oldest == s.oldest && Holds(r, [], 0, [], s.snaps[s.latest].next)
  {
    assert IdSet([]) == {} && Elems([]) == {};
  }

  lemma BeginStep(s: State)
    requires Inv(s) && s.writer == None && s.latest in s.snaps
    ensures Enabled(s, BeginWrite)
    ensures var r := Apply(s, BeginWrite);
            && Inv(r) && Step(s, r) && CommitsKept(s, r) && r.oldest == s.oldest
            && Holds(r, [], 0, [], s.snaps[s.latest].next)
  {
    hide Inv, Step, Apply, Enabled, CommitsKept, Holds;
    BeginShape(s);
    StepInv(s, BeginWrite);
    StepBy(s, BeginWrite);
  }

  lemma RefreshStep(s: State)
    ensures Enabled(s, RefreshOldest)
    ensures Apply(s, RefreshOldest) == s.(oldest := Oldest(s))
  {
  }

  lemma TakeHeadStep(s: State, head: seq<Id>, head': seq<Id>, last: nat, loose: seq<nat>, next: nat, p: nat, num: nat)
    requires Holds(s, head, last, loose, next) && s.latest in s.snaps
    requires forall x: Id :: x in head' <==> x in head && !(p <= x < p + num)
    requires forall x: Id :: p <= x < p + num ==> x in head
    requires p + num <= MAX_ID + 1
    ensures Enabled(s, Write(TakeHead(p, num)))
    ensures var r := Apply(s, Write(TakeHead(p, num)));
            SameBase(s, r) && r.oldest == s.oldest && Holds(r, head', last, loose, next) &&
              r.writer.value.hand == s.writer.value.hand + Span(p, num)
  {
    forall x | x in Span(p, num) ensures x in IdSet(head) {
      assert 0 <= x <= MAX_ID;
    }
    assert IdSet(head') == IdSet(head) - Span(p, num);
  }

  lemma RunEndFacts(s: seq<Id>, i: nat, num: nat)
    requires RunEndsAt(s, i, num)
    ensures 1 <= num <= i <= |s| && s[i - num] == s[i - 1] + (num - 1)
  {
  }

  /** Taking a run from me_pghead, with what the invariant then says of it. */
  lemma RunTaken(s: State, head: seq<Id>, head': seq<Id>, last: nat, loose: seq<nat>, next: nat, p: nat, num: nat)
    requires Inv(s) && Holds(s, head, last, loose, next) && s.latest in s.snaps
    requires (forall x: Id :: x in head' <==> x in head && !(p <= x < p + num))
    requires forall x: Id :: p <= x < p + num ==> x in head
    requires p + num <= MAX_ID + 1
    ensures Enabled(s, Write(TakeHead(p, num)))
    ensures var r := Apply(s, Write(TakeHead(p, num)));
            && Inv(r) && Step(s, r) && SameBase(s, r) && r.oldest == s.oldest && Holds(r, head', last, loose, next)
            && s.writer.Some? && r.writer.Some? && r.writer.value.hand == s.writer.value.hand + Span(p, num)
            && Shielded(r, Span(p, num)) && Span(p, num) !! s.writer.value.hand
  {
    hide Inv, Holds, LatestRecords, Step, Shielded, SameBase, Enabled, Apply, Span;
    TakeHeadStep(s, head, head', last, loose, next, p, num);
    StepInv(s, Write(TakeHead(p, num)));
    StepBy(s, Write(TakeHead(p, num)));
    var r := Apply(s, Write(TakeHead(p, num)));
    HandApart(s, head, last, loose, next);
    InHead(head, p, num);
    WriterThere(r, head', last, loose, next);
    SameBaseCommits(s, r);
    HandShielded(r, p, num);
  }

  lemma TakeNewStep(s: State, head: seq<Id>, last: nat, loose: seq<nat>, next: nat, num: nat)
    requires Holds(s, head, last, loose, next) && s.latest in s.snaps
    ensures Enabled(s, Write(TakeNew(num)))
    ensures var r := Apply(s, Write(TakeNew(num)));
            SameBase(s, r) && r.oldest == s.oldest && Holds(r, head, last, loose, next + num) &&
              r.writer.value.hand == s.writer.value.hand + Span(next, num)
  {
  }

  lemma TakeLooseStep(s: State, head: seq<Id>, last: nat, loose: seq<nat>, next: nat)
    requires Holds(s, head, last, loose, next) && s.latest in s.snaps && loose != [] && NoRepeats(loose)
    ensures Enabled(s, Write(TakeLoose(loose[0])))
    ensures var r := Apply(s, Write(TakeLoose(loose[0])));
            && SameBase(s, r) && r.oldest == s.oldest && Holds(r, head, last, loose[1..], next) && NoRepeats(loose[1..])
            && r.writer.value.hand == s.writer.value.hand + {loose[0]}
  {
    assert loose[0] in Elems(loose);
    assert Elems(loose[1..]) == Elems(loose) - {loose[0]} by {
      forall x ensures x in Elems(loose[1..]) <==> x in Elems(loose) - {loose[0]} {
        if x in loose && x != loose[0] {
          var i :| 0 <= i < |loose| && loose[i] == x;
          assert loose[1..][i - 1] == x;
        }
        if x in loose[1..] {
          var i :| 0 <= i < |loose| - 1 && loose[1..][i] == x;
          assert loose[i + 1] == x;
        }
      }
    }
  }

  lemma EditStep(s: State, e: TreeEdit, head: seq<Id>, head': seq<Id>, last: nat, loose: seq<nat>, loose': seq<nat>,
                 next: nat)
    requires Holds(s, head, last, loose, next) && s.latest in s.snaps && EditOk(s, s.writer.value, e)
    requires IdSet(head') == IdSet(head) + e.toHead && Elems(loose') == Elems(loose) + e.toLoose
    ensures Enabled(s, Write(Edit(e)))
    ensures Edited(s, Apply(s, Write(Edit(e))), e) && Holds(Apply(s, Write(Edit(e))), head', last, loose', next)
  {
    hide EditOk;
  }

  /** One edit step that gives pages back to me_pghead. */
  lemma ReturnStep(s: State, e: TreeEdit, head: seq<Id>, last: nat, loose: seq<nat>, next: nat, pg: nat, n: nat)
    requires Inv(s) && Holds(s, head, last, loose, next) && s.latest in s.snaps && s.writer.Some?
    requires EditOk(s, s.writer.value, e)
    requires n > 0 && e.toHead == Span(pg, n) && e.toLoose == {} && StrictlyDescending(head) && next <= MAX_PAGES
    ensures Enabled(s, Write(Edit(e))) && pg + n <= MAX_ID && |head| + n <= MAX_PAGES
    ensures StrictlyDescending(InsertedRun(head, pg, n))
    ensures var r := Apply(s, Write(Edit(e)));
            && Edited(s, r, e) && Holds(r, InsertedRun(head, pg, n), last, loose, next) && Inv(r)
            && r.latest == s.latest && r.snaps == s.snaps && r.readers == s.readers && r.oldest == s.oldest
            && LatestRecords(r) == LatestRecords(s) && IsTrace([s] + [r], s, r)
  {
    hide Inv, IsTrace, Step, EditOk, Edited, Holds, Enabled, Apply, CommitsKept, StrictlyDescending, InsertedRun,
         LatestRecords;
    EditApart(s, e);
    HoldsLoose(s, head, last, loose, next);
    RunBounds(head, pg, n, next);
    HeadBelow(s, head, last, loose, next);
    RunReturned(head, pg, n, next);
    assert Elems(loose) == Elems(loose) + e.toLoose;
    EditStep(s, e, head, InsertedRun(head, pg, n), last, loose, loose, next);
    var r := Apply(s, Write(Edit(e)));
    StepInv(s, Write(Edit(e)));
    StepBy(s, Write(Edit(e)));
    EditedCommits(s, r, e);
    CommitsFacts(s, r);
    LatestRecordsSame(s, r);
    TraceOne(s);
    TraceSnoc([s], s, s, r);
  }

  /** The loose list is emptied, into me_pghead or into mt_free_pgs. */
  lemma ReturnLooseStep(s: State, head: seq<Id>, head': seq<Id>, last: nat, loose: seq<nat>, next: nat,
                        toHead: set<nat>)
    requires Holds(s, head, last, loose, next) && s.latest in s.snaps
    requires toHead <= Elems(loose) && IdSet(head') == IdSet(head) + toHead
    ensures Enabled(s, Write(ReturnLoose(toHead)))
    ensures var r := Apply(s, Write(ReturnLoose(toHead)));
            && Holds(r, head', last, [], next) && CommitsKept(s, r) && r.oldest == s.oldest && r.disk == s.disk
            && (toHead == Elems(loose) ==> SameBase(s, r))
            && r.writer.value == s.writer.value.(loose := {}, head := IdSet(head'),
                 freePgs := s.writer.value.freePgs + (Elems(loose) - toHead))
  {
    assert Elems([]) == {};
  }

  /** The loose pages, sorted, belong to the file and are not in me_pghead. */
  lemma LooseBounds(s: State, head: seq<Id>, last: nat, loose: seq<nat>, next: nat, l: seq<Id>)
    requires Inv(s) && Holds(s, head, last, loose, next) && s.latest in s.snaps && StrictlyDescending(head)
    requires NoRepeats(loose) && next <= MAX_PAGES
    requires Descending(l) && multiset(l) == multiset(loose)
    ensures StrictlyDescending(l) && (forall x :: x in head ==> x !in l) && IdSet(l) == Elems(loose) && |l| == |loose|
    ensures |head| + |l| <= next && StrictlyDescending(Merge(head, l))
    ensures IdSet(Merge(head, l)) == IdSet(head) + Elems(loose)
  {
    hide Inv, Holds, Merge, StrictlyDescending, Descending, LatestRecords, Span;
    HoldsLoose(s, head, last, loose, next);
    WriterLoose(s);
    LooseSorted(loose, l);
    forall x | x in head ensures x !in l && x < next {
      assert x in IdSet(head);
      assert x in l ==> x in IdSet(l);
    }
    forall x | x in l ensures x < next { assert x in IdSet(l); }
    MergedBounds(head, l, next);
  }

  lemma LooseSorted(loose: seq<nat>, l: seq<Id>)
    requires NoRepeats(loose) && Descending(l) && multiset(l) == multiset(loose)
    ensures StrictlyDescending(l) && IdSet(l) == Elems(loose) && |l| == |loose|
  {
    hide Descending, StrictlyDescending, NoRepeats;
    assert |multiset(l)| == |l| && |multiset(loose)| == |loose|;
    forall x ensures x in IdSet(l) <==> x in Elems(loose) {
      assert x in multiset(loose) <==> x in loose;
      if 0 <= x <= MAX_ID { assert x in multiset(l) <==> x in l; }
    }
    forall x: Id ensures multiset(l)[x] <= 1 { AtMostOnce(loose, x); }
    StrictNoRepeat(l);
  }

  lemma MergedBounds(a: seq<Id>, b: seq<Id>, next: nat)
    requires StrictlyDescending(a) && StrictlyDescending(b) && (forall x :: x in a ==> x !in b && x < next)
    requires forall x :: x in b ==> x < next
    ensures StrictlyDescending(Merge(a, b)) && IdSet(Merge(a, b)) == IdSet(a) + IdSet(b) && |a| + |b| <= next
  {
    hide Merge, StrictlyDescending, Descending;
    StrictIsDescending(a);
    StrictIsDescending(b);
    MergeStrict(a, b);
    forall x ensures x in IdSet(Merge(a, b)) <==> x in IdSet(a) + IdSet(b) {
      if 0 <= x <= MAX_ID { MergeMembers(a, b, x); }
    }
    forall x | x in Merge(a, b) ensures x < next { MergeMembers(a, b, x); }
    StrictLength(Merge(a, b), next);
    MergeMultiset(a, b);
    assert |multiset(Merge(a, b))| == |Merge(a, b)| && |multiset(a)| == |a| && |multiset(b)| == |b|;
  }

  lemma LooseNotFree(s: State)
    requires Inv(s) && s.writer.Some? && s.latest in s.snaps
    ensures s.writer.value.loose !! s.writer.value.freePgs
  {
    hide Inv, TreesOk, Shielded, LatestRecords, SaveDone, ListedAbove, TreePages, Span;
    WriterFacts(s);
  }

  lemma WriterLoose(s: State)
    requires Inv(s) && s.writer.Some? && s.latest in s.snaps
    ensures var w := s.writer.value; w.head !! w.loose && w.next >= 2 && w.head + w.loose <= Span(2, w.next - 2)
  {
    hide Inv, TreesOk, Shielded, LatestRecords, SaveDone, ListedAbove, TreePages, Span;
    WriterFacts(s);
  }

  /** The writer's trees, dirty pages and lists after an edit. */
  ghost predicate Edited(s: State, r: State, e: TreeEdit) {
    && CommitsKept(s, r) && r.oldest == s.oldest && r.disk == s.disk && r.stable == s.stable
    && s.writer.Some? && r.writer.Some?
    && var w, v := s.writer.value, r.writer.value;
       && v.free == e.free && v.main == e.main && v.mem == e.mem && v.hand == e.hand
       && v.freePgs == w.freePgs + e.toFree && v.owned == w.owned
  }

  /** Pages that an edit makes loose were not loose, and those it returns were not in me_pghead. */
  lemma EditApart(s: State, e: TreeEdit)
    requires Inv(s) && s.writer.Some? && s.latest in s.snaps && EditOk(s, s.writer.value, e)
    ensures var w := s.writer.value; e.toLoose !! w.loose && e.toHead !! w.head && e.toFree !! w.freePgs
    ensures s.writer.value.next >= 2 && e.toHead <= Span(2, s.writer.value.next - 2)
  {
    hide Inv, TreesOk, Shielded, LatestRecords, SaveDone, ListedAbove, TreePages, Span, Reach;
    WriterFacts(s);
    var w := s.writer.value;
    assert e.toFree + e.toLoose + e.toHead <= TreePages(w) + w.hand;
  }

  lemma WriterParts(s: State)
    requires Inv(s) && s.writer.Some? && s.latest in s.snaps
    ensures s.writer.value.next >= 2
    ensures var w := s.writer.value;
            ListedAbove(LatestRecords(s), w.last) !! w.head &&
              ListedAbove(LatestRecords(s), w.last) + w.head <= Span(2, w.next - 2)
    ensures var w := s.writer.value; w.hand !! w.head && w.hand !! w.loose && w.hand <= Span(2, w.next - 2)
  {
    hide Inv, TreesOk, Shielded, LatestRecords, SaveDone, ListedAbove, TreePages, Span;
    WriterFacts(s);
  }

  lemma WriterTreesBelow(s: State)
    requires Inv(s) && s.writer.Some? && s.latest in s.snaps
    ensures forall q :: q in TreePages(s.writer.value) ==> 2 <= q < s.writer.value.next
  {
    hide Inv, TreesOk, Shielded, LatestRecords, SaveDone, ListedAbove, TreePages, Span;
    WriterFacts(s);
    var w := s.writer.value;
    forall q | q in TreePages(w) ensures 2 <= q < w.next {
      assert q in Span(2, w.next - 2);
    }
  }

  /** Page numbers in the lists are below mt_next_pgno, and a record not fetched yet shares none with me_pghead. */
  lemma ListBounds(s: State, head: seq<Id>, last: nat, loose: seq<nat>, next: nat, ids: seq<Id>, t: nat)
    requires Inv(s) && Holds(s, head, last, loose, next) && s.latest in s.snaps
    requires t in LatestRecords(s) && t > last && LatestRecords(s)[t] == ids
    ensures (forall x :: x in head ==> x < next) && (forall x :: x in ids ==> x < next)
    ensures forall x :: x in head ==> x !in ids
  {
    hide Inv, LatestRecords, ListedAbove;
    WriterParts(s);
    forall x | x in head ensures x < next {
      assert x in IdSet(head);
    }
    forall x | x in ids ensures x < next && x !in head {
      var y: nat := x;
      assert y in LatestRecords(s)[t];
      ListedMember(LatestRecords(s), last, t, y);
      assert x in head ==> y in IdSet(head);
    }
  }

  lemma ListedMember(m: map<nat, seq<nat>>, last: nat, t: nat, y: nat)
    requires t in m && t > last && y in m[t]
    ensures y in ListedAbove(m, last)
  {
  }

  /** Pages in the writer's hand are in no live snapshot. */
  lemma HandShielded(s: State, p: nat, num: nat)
    requires Inv(s) && s.writer.Some? && Span(p, num) <= s.writer.value.hand && s.latest in s.snaps
    ensures Shielded(s, Span(p, num))
  {
    hide Inv, TreesOk, Parts, SaveDone, Live, SnapPages;
    WriterFacts(s);
  }

  /** mdb_find_oldest: a scan of the reader table from its end. */
  method FindOldest(readers: seq<Option<nat>>, latest: nat) returns (oldest: nat)
    ensures oldest == OldestReader(readers, latest)
  {
    oldest := latest;
    var i: nat := |readers|;
    assert readers[i..] == [];
    while i > 0
      invariant i <= |readers| && oldest == OldestReader(readers[i..], latest)
    {
      i := i - 1;
      assert readers[i..][1..] == readers[i + 1..];
      if readers[i].Some? {
        var mr := readers[i].value;
        if oldest > mr { oldest := mr; }
      }
    }
    assert readers[0..] == readers;
  }

  /** mdb_env_pick_meta. */
  method PickNewest(metas: seq<Meta>) returns (toggle: nat)
    requires |metas| == 2
    ensures toggle < 2 && metas[toggle].txnid >= metas[1 - toggle].txnid
    ensures toggle == PickMeta(metas)
  {
    toggle := if metas[0].txnid < metas[1].txnid then 1 else 0;
  }

  /** The reader table with a slot filled, which may be a new one. */
  function WithReader(readers: seq<Option<nat>>, slot: nat, t: nat): seq<Option<nat>> {
    if slot < |readers| then readers[slot := Some(t)] else readers + [Some(t)]
  }

  ghost predicate FirstFree(readers: seq<Option<nat>>, slot: nat) {
    slot <= |readers| && (slot < |readers| ==> readers[slot].None?) && forall i :: 0 <= i < slot ==> readers[i].Some?
  }

  // ---------------------------------------------------------------- the environment

  class Environment {
    var readers: seq<Option<nat>>   // mti_readers
    var latest: nat                 // mti_txnid
    var pgoldest: nat               // me_pgoldest
    var pglast: nat                 // me_pglast
    const head: IdList              // me_pghead, empty while there is none
    var loose: seq<nat>             // mt_loose_pgs
    var nextPgno: nat               // mt_next_pgno
    const maxpg: nat                // me_maxpg
    var dirtyRoom: nat              // mt_dirty_room
    const recs: seq<Rec>            // the freeDB as of the last commit
    ghost var st: State

    ghost predicate Tied()
      reads this`readers, this`latest, this`pgoldest, this`pglast, this`loose, this`nextPgno, this`st, head, head.ids
    {
      && head.Valid() && StrictlyDescending(head.View()) && maxpg <= MAX_PAGES && nextPgno <= maxpg && NoRepeats(loose)
      && st.latest == latest && st.readers == readers && st.oldest == pgoldest && st.latest in st.snaps
      && Holds(st, head.View(), pglast, loose, nextPgno) && RecsMatch(recs, LatestRecords(st))
    }

    ghost predicate Valid()
      reads this`readers, this`latest, this`pgoldest, this`pglast, this`loose, this`nextPgno, this`st, head, head.ids
    {
      Tied() && Inv(st)
    }

    /** mdb_txn_renew0 for a write transaction, on a map that is large enough. */
    constructor (ghost s: State, readers: seq<Option<nat>>, latest: nat, pgoldest: nat, recs: seq<Rec>, next: nat,
                 maxpg: nat, head: IdList)
      requires Inv(s) && s.writer == None && s.latest in s.snaps
      requires s.latest == latest && s.readers == readers && s.oldest == pgoldest
      requires next == s.snaps[latest].next <= maxpg <= MAX_PAGES
      requires RecsMatch(recs, LatestRecords(s)) && head.Valid() && head.View() == []
      ensures Valid() && Step(s, st) && Enabled(s, BeginWrite) && st == Apply(s, BeginWrite)
      ensures this.head == head && nextPgno == next && loose == [] && this.maxpg == maxpg && dirtyRoom == UM_MAX
    {
      hide Inv, LatestRecords, RecsMatch, Step, Holds, Apply, Enabled;
      BeginStep(s);
      LatestRecordsSame(s, Apply(s, BeginWrite));
      this.readers, this.latest, this.pgoldest, this.pglast := readers, latest, pgoldest, 0;
      this.head, this.loose, this.nextPgno, this.maxpg, this.dirtyRoom, this.recs := head, [], next, maxpg, UM_MAX,
        recs;
      st := Apply(s, BeginWrite);
    }

    /** me_pgoldest is brought up to date. */
    method Refresh(ghost tr0: seq<State>, ghost s0: State) returns (ghost tr: seq<State>)
      requires Valid() && IsTrace(tr0, s0, st)
      modifies this`pgoldest, this`st
      ensures Valid() && IsTrace(tr, s0, st) && SameBase(old(st), st) && st.writer == old(st.writer)
      ensures pgoldest == OldestReader(readers, latest)
    {
      hide Inv, IsTrace, Holds, RecsMatch, LatestRecords, Step;
      var oldest := FindOldest(readers, latest);
      RefreshStep(st);
      StepInv(st, RefreshOldest);
      StepBy(st, RefreshOldest);
      ghost var st' := Apply(st, RefreshOldest);
      TraceSnoc(tr0, s0, st, st');
      tr := tr0 + [st'];
      pgoldest, st := oldest, st';
      HoldsFrame(old(st), st, head.View(), pglast, loose, nextPgno);
      LatestRecordsSame(old(st), st);
    }

    /** Merge record k into me_pghead. */
    method Fetch(k: nat, ghost tr0: seq<State>, ghost s0: State) returns (ghost tr: seq<State>)
      requires Valid() && IsTrace(tr0, s0, st)
      requires k < |recs| && pglast < recs[k].txn < pgoldest && forall i :: 0 <= i < k ==> recs[i].txn <= pglast
      modifies this`pglast, this`st, head, head.ids
      ensures Valid() && IsTrace(tr, s0, st) && SameBase(old(st), st) && st.writer.Some?
      ensures st.writer.value.hand == old(st.writer.value.hand)
      ensures pglast == recs[k].txn && head.View() == Merge(old(head.View()), recs[k].ids)
      ensures fresh(head.ids) || head.ids == old(head.ids)
    {
      hide Inv, IsTrace, Holds, LatestRecords, Step, NextRecord;
      ghost var was := head.View();
      var t, ids := recs[k].txn, recs[k].ids;
      SeekIsNext(recs, LatestRecords(st), pglast, k);
      NextIsRecord(LatestRecords(st), pglast, t);
      hide RecsMatch;
      ListBounds(st, was, pglast, loose, nextPgno, ids, t);
      MergeStrict(was, ids);
      forall x | x in Merge(was, ids) ensures x < nextPgno { MergeMembers(was, ids, x); }
      StrictLength(Merge(was, ids), nextPgno);
      FetchStep(st, was, pglast, loose, nextPgno, ids, t);
      StepInv(st, Write(WriterAction.Fetch(t)));
      StepBy(st, Write(WriterAction.Fetch(t)));
      ghost var st' := Apply(st, Write(WriterAction.Fetch(t)));
      TraceSnoc(tr0, s0, st, st');
      tr := tr0 + [st'];
      LatestRecordsSame(st, st');
      MergeRecord(ids);
      pglast, st := t, st';
    }

    /** Is txn older than every snapshot that may still be read? The reader table is scanned at most once. */
    method OldEnough(txn: nat, scanned0: bool, ghost tr0: seq<State>, ghost s0: State)
      returns (ok: bool, scanned: bool, ghost tr: seq<State>)
      requires Valid() && IsTrace(tr0, s0, st) && (scanned0 ==> pgoldest == OldestReader(readers, latest))
      modifies this`pgoldest, this`st
      ensures Valid() && IsTrace(tr, s0, st) && SameBase(old(st), st) && st.writer == old(st.writer)
      ensures (ok <==> txn < OldestReader(readers, latest)) && (ok ==> txn < pgoldest)
      ensures scanned ==> pgoldest == OldestReader(readers, latest)
    {
      hide Inv, IsTrace, Tied, Step;
      TiedFacts();
      OldestBound();
      scanned, tr := scanned0, tr0;
      if pgoldest <= txn && !scanned {
        tr := Refresh(tr, s0);
        scanned := true;
      }
      ok := txn < pgoldest;
    }

    lemma OldestBound()
      requires Valid()
      ensures pgoldest <= OldestReader(readers, latest)
    {
      hide Holds, RecsMatch, LatestRecords, MetasOk, SnapsOk, RecordsOk, WriterOk;
    }

    /** What the search for num pages must find from here. */
    ghost function Search(num: nat): Finding
      requires head.Valid()
      reads this`readers, this`latest, this`pglast, head, head.ids
    {
      Searched(recs, head.View(), FirstAfter(recs, pglast), OldestReader(readers, latest), num, num * 60)
    }

    /** What the allocator must answer from here. */
    ghost function Outcome(num: nat): AllocResult
      requires head.Valid()
      reads this`readers, this`latest, this`pglast, this`loose, this`dirtyRoom, this`nextPgno, head, head.ids
    {
      if num == 1 && loose != [] then AllocResult.Page(loose[0])
      else if dirtyRoom == 0 then TxnFull
      else
        var g := Search(num);
        if g.i != 0 then AllocResult.Page(g.head[g.i - 1])
        else if nextPgno + num >= maxpg then MapFull
        else AllocResult.Page(nextPgno)
    }

    lemma RecsSorted()
      requires Valid()
      ensures forall i, j :: 0 <= i < j < |recs| ==> recs[i].txn < recs[j].txn
    {
      hide Inv, Holds, LatestRecords;
    }

    /** Fetch the first record not fetched, number k, if there is one that every reader has left behind. */
    method FetchNext(ghost k: nat, scanned0: bool, ghost tr0: seq<State>, ghost s0: State)
      returns (more: bool, scanned: bool, ghost tr: seq<State>)
      requires Valid() && IsTrace(tr0, s0, st) && SameBase(s0, st)
      requires (scanned0 ==> pgoldest == OldestReader(readers, latest))
      requires k <= |recs| && (forall j :: 0 <= j < k ==> recs[j].txn <= pglast)
      requires (k < |recs| ==> recs[k].txn > pglast)
      modifies this`pglast, this`pgoldest, this`st, head, head.ids
      ensures Valid() && IsTrace(tr, s0, st) && SameBase(s0, st) && SameBase(old(st), st)
      ensures st.writer.Some? && old(st.writer).Some? && st.writer.value.hand == old(st.writer.value.hand)
      ensures fresh(head.ids) || head.ids == old(head.ids)
      ensures more <==> k < |recs| && recs[k].txn < OldestReader(readers, latest)
      ensures if more then head.View() == Merge(old(head.View()), recs[k].ids) && pglast == recs[k].txn
              else head.View() == old(head.View()) && pglast == old(pglast)
      ensures scanned ==> pgoldest == OldestReader(readers, latest)
    {
      hide Inv, IsTrace, Tied, Step, SameBase, Merge, OldestReader;
      ghost var q, w := st, st;
      TraceOne(st);
      TiedFacts();
      var enough;
      enough, scanned, tr := OldEnough(pglast + 1, scanned0, tr0, s0);
      SameBaseTrans(s0, q, st);
      more := false;
      if !enough { return; }
      var next := SeekRecord(recs, pglast + 1);
      if next == |recs| { return; }
      assert next == k;
      q := st;
      enough, scanned, tr := OldEnough(recs[next].txn, scanned, tr, s0);
      SameBaseTrans(s0, q, st);
      SameBaseTrans(w, q, st);
      if !enough { return; }
      q := st;
      tr := Fetch(next, tr, s0);
      SameBaseTrans(s0, q, st);
      SameBaseTrans(w, q, st);
      more := true;
    }

    /** The search of mdb_page_alloc: a run of num pages in me_pghead, to which records of the freeDB are added one by
        one as long as they are older than any snapshot in use. */
    method Gather(num: nat) returns (i: nat, ghost tr: seq<State>)
      requires Valid() && num >= 1
      modifies this`pglast, this`pgoldest, this`st, head, head.ids
      ensures Valid() && IsTrace(tr, old(st), st) && SameBase(old(st), st)
      ensures st.writer.Some? && old(st.writer).Some? && st.writer.value.hand == old(st.writer.value.hand)
      ensures fresh(head.ids) || head.ids == old(head.ids)
      ensures var g := old(Search(num));
              && head.View() == g.head && i == g.i && FirstAfter(recs, old(pglast)) <= g.k <= |recs|
              && pglast == LastKey(recs, FirstAfter(recs, old(pglast)), g.k, old(pglast))
      ensures i != 0 ==> RunEndsAt(head.View(), i, num)
    {
      hide Inv, IsTrace, Tied, Step, SameBase, Searched, Searching, Merge, RunEndsAt, OldestReader, FirstAfter, LastKey,
           LastRun, StrictlyDescending;
      TiedFacts();
      RecsSorted();
      ghost var s0, limit := st, OldestReader(readers, latest);
      var retry: int, scanned := num * 60, false;
      ghost var k0, last0 := FirstAfter(recs, pglast), pglast;
      ghost var g, done := Search(num), k0;
      tr := [st];
      TraceOne(st);
      SearchStarts(recs, head.View(), pglast, limit, num);
      i := 0;
      while true
        invariant Valid() && head.Valid() && StrictlyDescending(head.View()) && IsTrace(tr, s0, st) && SameBase(s0, st)
        invariant st.writer.Some? && s0.writer.Some? && st.writer.value.hand == s0.writer.value.hand
        invariant fresh(head.ids) || head.ids == old(head.ids)
        invariant scanned ==> pgoldest == OldestReader(readers, latest)
        invariant i == 0 && Searching(recs, head.View(), pglast, k0, last0, done, limit, num, retry, g)
        decreases |recs| - done
      {
        ghost var view, last, tries := head.View(), pglast, retry;
        SearchEnds(recs, view, last, k0, last0, done, limit, num, retry, g);
        if head.ids[0] > num - 1 {
          i := FindRun(head.ids, num);
          assert Ids(head.ids) == view && |view| == head.ids[0];
          OnlyRun(view, i, num);
          if i != 0 { return; }
          retry := retry - 1;
          if retry < 0 { break; }
        } else {
          TooShort(view, num);
        }
        var more;
        more, scanned, tr := FetchNext(done, scanned, tr, s0);
        if !more { break; }
        TiedFacts();
        SearchGoesOn(recs, view, last, k0, last0, done, limit, num, tries, retry, g);
        done := done + 1;
      }
    }

    /** An edit of the trees that makes at most one page loose. */
    method EditTrees(ghost e: TreeEdit, made: seq<nat>) returns (ghost tr: seq<State>)
      requires Valid() && st.writer.Some? && st.latest in st.snaps && EditOk(st, st.writer.value, e)
      requires |made| <= 1 && e.toHead == {} && e.toLoose == Elems(made)
      modifies this`loose, this`st
      ensures Valid() && IsTrace(tr, old(st), st) && Edited(old(st), st, e) && loose == made + old(loose)
    {
      hide Inv, IsTrace, Holds, LatestRecords, RecsMatch, Step, EditOk, Edited, StrictlyDescending, NoRepeats, IdSet,
           Elems,
           Enabled, Apply, CommitsKept;
      ghost var a := Write(Edit(e));
      EditApart(st, e);
      HoldsLoose(st, head.View(), pglast, loose, nextPgno);
      MoreLoose(made, loose);
      assert IdSet(head.View()) == IdSet(head.View()) + e.toHead;
      EditStep(st, e, head.View(), head.View(), pglast, loose, made + loose, nextPgno);
      TraceOne(st);
      StepInv(st, a);
      StepBy(st, a);
      ghost var st' := Apply(st, a);
      EditedCommits(st, st', e);
      TraceSnoc([st], st, st, st');
      tr := [st] + [st'];
      LatestRecordsSame(st, st');
      loose, st := made + loose, st';
    }

    /** An edit of the trees that gives a run of pages back to me_pghead, as mdb_ovpage_free does. */
    method EditReturning(ghost e: TreeEdit, pg: nat, n: nat) returns (ghost tr: seq<State>)
      requires Valid() && st.writer.Some? && st.latest in st.snaps && EditOk(st, st.writer.value, e)
      requires n > 0 && e.toLoose == {} && e.toHead == Span(pg, n)
      modifies this`st, head, head.ids
      ensures Valid() && IsTrace(tr, old(st), st) && Edited(old(st), st, e)
      ensures fresh(head.ids) || head.ids == old(head.ids)
      ensures pg + n <= MAX_ID && head.View() == InsertedRun(old(head.View()), pg, n)
    {
      hide Inv, IsTrace, Holds, LatestRecords, RecsMatch, Step, EditOk, Edited, InsertedRun, Enabled, Apply,
           StrictlyDescending, NoRepeats, CommitsKept;
      ghost var was := head.View();
      ReturnStep(st, e, was, pglast, loose, nextPgno, pg, n);
      ghost var st' := Apply(st, Write(Edit(e)));
      tr := [st] + [st'];
      GiveBack(pg, n);
      assert head.View() == InsertedRun(was, pg, n);
      st := st';
    }

    /** The loose pages go to me_pghead at the end of mdb_freelist_save: they are listed behind it in its own
        allocation, sorted, and merged into it from there. */
    method LooseToHead() returns (ghost tr: seq<State>)
      requires Valid()
      modifies this`loose, this`st, head, head.ids
      ensures Valid() && IsTrace(tr, old(st), st) && SameBase(old(st), st) && st.writer.Some? && old(st.writer).Some?
      ensures st.writer.value.hand == old(st.writer.value.hand) && loose == []
      ensures StrictlyDescending(head.View()) && IdSet(head.View()) == old(IdSet(head.View()) + Elems(loose))
      ensures fresh(head.ids) || head.ids == old(head.ids)
    {
      hide Inv, IsTrace, Holds, LatestRecords, RecsMatch, Step, SameBase, Enabled, Apply, Merge;
      HoldsLoose(st, head.View(), pglast, loose, nextPgno);
      LooseFits();
      var l := SortLoose(loose);
      ghost var was, all := head.View(), loose;
      LooseBounds(st, was, pglast, all, nextPgno, l);
      ghost var a := Write(ReturnLoose(Elems(all)));
      ReturnLooseStep(st, was, Merge(was, l), pglast, all, nextPgno, Elems(all));
      TraceOne(st);
      StepInv(st, a);
      StepBy(st, a);
      ghost var st' := Apply(st, a);
      TraceSnoc([st], st, st, st');
      tr := [st] + [st'];
      SameBaseCommits(st, st');
      LatestRecordsSame(st, st');
      MergeFromTail(l);
      loose, st := [], st';
    }

    /** The loose pages leave their list for mt_free_pgs, at the start of mdb_freelist_save when there is no
        me_pghead. */
    method LooseToFree() returns (ghost tr: seq<State>)
      requires Valid()
      modifies this`loose, this`st
      ensures Valid() && IsTrace(tr, old(st), st) && loose == [] && CommitsKept(old(st), st) && st.disk == old(st.disk)
      ensures old(st.writer).Some? && st.writer.Some?
      ensures old(st.writer.value.loose == Elems(loose) && st.writer.value.freePgs !! Elems(loose))
      ensures st.writer.value == old(st.writer.value).(loose := {},
        freePgs := old(st.writer.value.freePgs + Elems(loose)))
      ensures forall x :: x in old(loose) ==> x <= MAX_ID
    {
      hide Inv, IsTrace, Holds, LatestRecords, RecsMatch, Step, Enabled, Apply;
      HoldsLoose(st, head.View(), pglast, loose, nextPgno);
      LooseFits();
      LooseNotFree(st);
      ghost var a := Write(ReturnLoose({}));
      assert IdSet(head.View()) == IdSet(head.View()) + {};
      ReturnLooseStep(st, head.View(), head.View(), pglast, loose, nextPgno, {});
      assert Elems(loose) - {} == Elems(loose);
      TraceOne(st);
      StepInv(st, a);
      StepBy(st, a);
      ghost var st' := Apply(st, a);
      TraceSnoc([st], st, st, st');
      tr := [st] + [st'];
      LatestRecordsSame(st, st');
      loose, st := [], st';
    }

    lemma LooseFits()
      requires Valid()
      ensures |loose| <= nextPgno <= MAX_PAGES && forall x :: x in loose ==> x <= MAX_ID
    {
      hide Inv, LatestRecords, RecsMatch;
      WriterLoose(st);
      forall x | x in loose ensures x < nextPgno { assert x in Elems(loose); }
      LooseLength(loose, nextPgno);
    }

    /** Room for the list and for a temporary one behind it. */
    method MergeFromTail(l: seq<Id>)
      requires head.Valid() && |head.View()| + 2 * |l| + 1 < 0x8000_0000
      modifies head, head.ids
      ensures head.Valid() && head.View() == Merge(old(head.View()), l)
      ensures fresh(head.ids) || head.ids == old(head.ids)
    {
      hide Merge;
      head.Need(2 * |l| + 1);
      ghost var was := head.View();
      var ofs: nat := head.AllocLen() - |l|;
      WriteTail(head.ids, ofs, l);
      assert Ids(head.ids) == was;
      XMerge(head.ids, head.ids, ofs);
    }

    /** The in-place insertion, after making room. */
    method GiveBack(pg: nat, n: nat)
      requires head.Valid() && StrictlyDescending(head.View()) && |head.View()| + n < 0x8000_0000 && pg + n <= MAX_ID
      modifies head, head.ids
      ensures head.Valid() && head.View() == InsertedRun(old(head.View()), pg, n)
      ensures fresh(head.ids) || head.ids == old(head.ids)
    {
      hide InsertedRun;
      head.Need(n);
      StrictIsDescending(head.View());
      InsertRun(head.ids, pg, n);
    }

    /** The reader half of mdb_txn_renew0, as one step: the first free slot takes the last transaction ID. */
    method BeginReader() returns (slot: nat, ghost tr: seq<State>)
      requires Valid()
      modifies this`readers, this`st
      ensures Valid() && IsTrace(tr, old(st), st) && st.writer == old(st.writer) && st.latest == old(st.latest)
      ensures readers == WithReader(old(readers), slot, latest) && FirstFree(old(readers), slot)
    {
      hide Inv, IsTrace, Holds, LatestRecords, RecsMatch, Step;
      slot := 0;
      while slot < |readers| && readers[slot].Some?
        invariant slot <= |readers| && forall i :: 0 <= i < slot ==> readers[i].Some?
      {
        slot := slot + 1;
      }
      TraceOne(st);
      StepInv(st, BeginRead(slot));
      StepBy(st, BeginRead(slot));
      ghost var st' := Apply(st, BeginRead(slot));
      TraceSnoc([st], st, st, st');
      tr := [st] + [st'];
      HoldsFrame(st, st', head.View(), pglast, loose, nextPgno);
      SameRecords(st, st');
      readers, st := WithReader(readers, slot, latest), st';
    }

    /** The reader half of mdb_txn_reset0. */
    method EndReader(slot: nat) returns (ghost tr: seq<State>)
      requires Valid() && slot < |readers|
      modifies this`readers, this`st
      ensures Valid() && IsTrace(tr, old(st), st) && st.writer == old(st.writer)
      ensures readers == old(readers)[slot := None]
    {
      hide Inv, IsTrace, Holds, LatestRecords, RecsMatch, Step;
      TraceOne(st);
      StepInv(st, EndRead(slot));
      StepBy(st, EndRead(slot));
      ghost var st' := Apply(st, EndRead(slot));
      TraceSnoc([st], st, st, st');
      tr := [st] + [st'];
      HoldsFrame(st, st', head.View(), pglast, loose, nextPgno);
      SameRecords(st, st');
      readers, st := readers[slot := None], st';
    }

    /** The answer to a request for num pages, and where the pages come from: a loose page; or, while the dirty list has
        room, the run found in me_pghead and the records fetched into it, or the end of the file. */
    twostate predicate Answered(num: nat, r: AllocResult)
      requires old(head.Valid()) && head.Valid()
      reads this, head, head.ids
    {
      && r == old(Outcome(num))
      && (if num == 1 && old(loose) != [] then Reused(old(loose), loose) else loose == old(loose))
      && if (num == 1 && old(loose) != []) || old(dirtyRoom) == 0 then
           && nextPgno == old(nextPgno) && dirtyRoom == old(dirtyRoom)
           && head.View() == old(head.View()) && pglast == old(pglast)
         else
           && Allocated(old(Search(num)), num, maxpg, old(nextPgno), r, head.View(), nextPgno)
           && Fetched(recs, old(pglast), pglast, old(Search(num)))
           && dirtyRoom == old(dirtyRoom) - if r.Page? then 1 else 0
    }

    /** mdb_page_alloc: a loose page, a run from me_pghead, or new pages at the end of the file, in this order: the
        end of the file only when the search finds no run. What it does is a run of the state machine, and no live
        snapshot uses the pages it returns. */
    method PageAlloc(num: nat) returns (r: AllocResult, ghost tr: seq<State>)
      requires Valid() && num >= 1
      modifies this`loose, this`pglast, this`pgoldest, this`nextPgno, this`dirtyRoom, this`st, head, head.ids
      ensures Valid() && IsTrace(tr, old(st), st) && SameBase(old(st), st)
      ensures st.writer.Some? && old(st.writer).Some?
      ensures st.writer.value.hand == old(st.writer.value.hand) + if r.Page? then Span(r.pgno, num) else {}
      ensures r.Page? ==> Shielded(st, Span(r.pgno, num)) && Span(r.pgno, num) !! old(st.writer.value.hand)
      ensures fresh(head.ids) || head.ids == old(head.ids)
      ensures Answered(num, r)
      ensures r.TxnFull? ==> old(dirtyRoom) == 0 && (num > 1 || old(loose) == [])
      ensures r.MapFull? ==> old(nextPgno) + num >= maxpg && (num > 1 || old(loose) == []) && old(Search(num)).i == 0
      ensures nextPgno == old(nextPgno) || nextPgno == old(nextPgno) + num
    {
      hide Inv, IsTrace, Tied, Step, SameBase, Shielded, RunEndsAt, Span, Searched, Allocated, Fetched, OldestReader,
           FirstAfter;
      TiedFacts();
      if num == 1 && loose != [] {
        r, tr := TakeLoosePage();
        return;
      }
      if dirtyRoom == 0 {
        TraceOne(st);
        return TxnFull, [st];
      }
      r, tr := AllocDirty(num);
    }

    /** The pages are entered in the dirty list, of which one slot is taken. */
    method AllocDirty(num: nat) returns (r: AllocResult, ghost tr: seq<State>)
      requires Valid() && num >= 1 && dirtyRoom > 0 && (num > 1 || loose == [])
      modifies this`pglast, this`pgoldest, this`nextPgno, this`dirtyRoom, this`st, head, head.ids
      ensures Valid() && IsTrace(tr, old(st), st) && SameBase(old(st), st)
      ensures st.writer.Some? && old(st.writer).Some?
      ensures st.writer.value.hand == old(st.writer.value.hand) + if r.Page? then Span(r.pgno, num) else {}
      ensures r.Page? ==> Shielded(st, Span(r.pgno, num)) && Span(r.pgno, num) !! old(st.writer.value.hand)
      ensures fresh(head.ids) || head.ids == old(head.ids)
      ensures Answered(num, r) && !r.TxnFull?
      ensures r.MapFull? ==> old(nextPgno) + num >= maxpg && old(Search(num)).i == 0
      ensures nextPgno == old(nextPgno) || nextPgno == old(nextPgno) + num
    {
      hide Inv, IsTrace, Tied, Step, SameBase, Shielded, RunEndsAt, Span, Searched, Allocated, Fetched, OldestReader,
           FirstAfter;
      TiedFacts();
      r, tr := AllocRun(num);
      TiedFacts();
      AllocatedFacts(old(Search(num)), num, maxpg, old(nextPgno), r, head.View(), nextPgno);
      if r.Page? { dirtyRoom := dirtyRoom - 1; }
    }

    /** A run from me_pghead or from the end of the file. */
    method AllocRun(num: nat) returns (r: AllocResult, ghost tr: seq<State>)
      requires Valid() && num >= 1
      modifies this`pglast, this`pgoldest, this`nextPgno, this`st, head, head.ids
      ensures Valid() && IsTrace(tr, old(st), st) && SameBase(old(st), st)
      ensures st.writer.Some? && old(st.writer).Some?
      ensures st.writer.value.hand == old(st.writer.value.hand) + if r.Page? then Span(r.pgno, num) else {}
      ensures r.Page? ==> Shielded(st, Span(r.pgno, num)) && Span(r.pgno, num) !! old(st.writer.value.hand)
      ensures fresh(head.ids) || head.ids == old(head.ids)
      ensures Allocated(old(Search(num)), num, maxpg, old(nextPgno), r, head.View(), nextPgno)
      ensures Fetched(recs, old(pglast), pglast, old(Search(num)))
    {
      hide Inv, IsTrace, Tied, Step, SameBase, Shielded, RunEndsAt, Searched, OldestReader, FirstAfter, LastKey, Span;
      TiedFacts();
      ghost var s0, g := st, Search(num);
      var i;
      i, tr := Gather(num);
      TiedFacts();
      if i != 0 {
        RunEndFacts(head.View(), i, num);
        r, tr := TakeHeadPages(i, num, tr, s0);
      } else if nextPgno + num >= maxpg {
        r := MapFull;
      } else {
        r, tr := TakeNewPages(num, tr, s0);
      }
    }

    method TakeLoosePage() returns (r: AllocResult, ghost tr: seq<State>)
      requires Valid() && loose != []
      modifies this`loose, this`st
      ensures Valid() && IsTrace(tr, old(st), st) && SameBase(old(st), st) && st.writer.Some? && old(st.writer).Some?
      ensures r == AllocResult.Page(old(loose)[0]) && loose == old(loose)[1..]
      ensures st.writer.value.hand == old(st.writer.value.hand) + Span(r.pgno, 1) && Shielded(st, Span(r.pgno, 1))
      ensures r.pgno !in old(st.writer.value.hand)
    {
      hide Inv, IsTrace, Holds, LatestRecords, RecsMatch, Step, Shielded;
      ghost var a := Write(TakeLoose(loose[0]));
      TakeLooseStep(st, head.View(), pglast, loose, nextPgno);
      TraceOne(st);
      StepInv(st, a);
      StepBy(st, a);
      ghost var st' := Apply(st, a);
      TraceSnoc([st], st, st, st');
      tr := [st] + [st'];
      r := AllocResult.Page(loose[0]);
      assert Span(loose[0], 1) == {loose[0]};
      LatestRecordsSame(st, st');
      HandApart(st, head.View(), pglast, loose, nextPgno);
      WriterThere(st', head.View(), pglast, loose[1..], nextPgno);
      HandShielded(st', loose[0], 1);
      loose, st := loose[1..], st';
    }

    method TakeNewPages(num: nat, ghost tr0: seq<State>, ghost s0: State) returns (r: AllocResult, ghost tr: seq<State>)
      requires Valid() && nextPgno + num < maxpg && IsTrace(tr0, s0, st) && SameBase(s0, st)
      modifies this`nextPgno, this`st
      ensures Valid() && IsTrace(tr, s0, st) && SameBase(s0, st) && st.writer.Some? && old(st.writer).Some?
      ensures r == AllocResult.Page(old(nextPgno)) && nextPgno == old(nextPgno) + num
      ensures st.writer.value.hand == old(st.writer.value.hand) + Span(r.pgno, num) && Shielded(st, Span(r.pgno, num))
      ensures Span(r.pgno, num) !! old(st.writer.value.hand)
    {
      hide Inv, IsTrace, Holds, LatestRecords, RecsMatch, Step, Shielded;
      ghost var a := Write(TakeNew(num));
      TakeNewStep(st, head.View(), pglast, loose, nextPgno, num);
      StepInv(st, a);
      StepBy(st, a);
      ghost var st' := Apply(st, a);
      TraceSnoc(tr0, s0, st, st');
      tr := tr0 + [st'];
      r := AllocResult.Page(nextPgno);
      LatestRecordsSame(st, st');
      HandApart(st, head.View(), pglast, loose, nextPgno);
      WriterThere(st', head.View(), pglast, loose, nextPgno + num);
      HandShielded(st', nextPgno, num);
      nextPgno, st := nextPgno + num, st';
    }

    method TakeHeadPages(i: nat, num: nat, ghost tr0: seq<State>, ghost s0: State)
      returns (r: AllocResult, ghost tr: seq<State>)
      requires Valid() && num >= 1 && RunEndsAt(head.View(), i, num) && IsTrace(tr0, s0, st) && SameBase(s0, st)
      modifies this`st, head.ids
      ensures Valid() && IsTrace(tr, s0, st) && SameBase(s0, st) && st.writer.Some? && old(st.writer).Some?
      ensures r.Page? && st.writer.value.hand == old(st.writer.value.hand) + Span(r.pgno, num)
      ensures Shielded(st, Span(r.pgno, num)) && Span(r.pgno, num) !! old(st.writer.value.hand)
      ensures i <= |old(head.View())| && r.pgno == old(head.View())[i - 1]
      ensures head.View() == WithoutRun(old(head.View()), i, num)
    {
      hide Inv, IsTrace, Holds, LatestRecords, RecsMatch, Step, Shielded, SameBase, Enabled, Apply, RunEndsAt, Span;
      ghost var was := head.View();
      RunEndFacts(was, i, num);
      var pgno: nat := head.ids[i];
      assert pgno == was[i - 1];
      WithoutRunExact(was, i, num);
      RunTaken(st, was, WithoutRun(was, i, num), pglast, loose, nextPgno, pgno, num);
      ghost var st' := Apply(st, Write(TakeHead(pgno, num)));
      SameBaseCommits(st, st');
      LatestRecordsSame(st, st');
      SameBaseTrans(s0, st, st');
      TraceSnoc(tr0, s0, st, st');
      tr := tr0 + [st'];
      r := AllocResult.Page(pgno);
      RemoveRun(head.ids, i, num);
      st := st';
    }

    lemma TiedFacts()
      requires Tied()
      ensures head.Valid() && StrictlyDescending(head.View()) && st.writer.Some? && st.latest in st.snaps
    {
    }

    /** Pages in use are below mt_next_pgno. */
    lemma TreesBelow()
      requires Valid()
      ensures st.writer.Some? && nextPgno <= MAX_PAGES
      ensures forall q :: q in TreePages(st.writer.value) ==> 2 <= q < nextPgno
    {
      hide Inv, Holds, RecsMatch, LatestRecords, TreePages;
      HoldsLoose(st, head.View(), pglast, loose, nextPgno);
      WriterTreesBelow(st);
    }

    /** Room for the record, then the in-place merge. */
    method MergeRecord(ids: seq<Id>)
      requires head.Valid() && |head.View()| + |ids| < 0x8000_0000
      modifies head, head.ids
      ensures head.Valid() && head.View() == Merge(old(head.View()), ids)
      ensures fresh(head.ids) || head.ids == old(head.ids)
    {
      var idl := new Id[|ids| + 1];
      idl[0] := |ids|;
      forall j | 0 <= j < |ids| { idl[j + 1] := ids[j]; }
      assert Ids(idl) == ids;
      head.Need(|ids|);
      assert IdsAt(idl, 0) == ids;
      XMerge(head.ids, idl, 0);
    }
  }

  lemma SameBaseCommits(s: State, r: State)
    requires SameBase(s, r)
    ensures CommitsKept(s, r) && r.latest == s.latest && r.snaps == s.snaps && r.readers == s.readers
  {
  }

  lemma {:induction false} LooseLength(s: seq<nat>, bound: nat)
    requires NoRepeats(s) && forall x :: x in s ==> x < bound
    ensures |s| <= bound
  {
    ElemsSize(s);
    assert Elems(s) <= Span(0, bound);
    SubsetSize(Elems(s), Span(0, bound));
  }

  lemma SubsetSize(a: set<nat>, b: set<nat>)
    requires a <= b
    ensures |a| <= |b|
  {
    assert b == a + (b - a);
  }

  /** A second list behind the first, in the same array. */
  method WriteTail(ids: array<Id>, ofs: nat, l: seq<Id>)
    requires IsIdl(ids) && ids[0] < ofs && ofs + |l| < ids.Length
    modifies ids
    ensures IsIdl(ids) && Ids(ids) == old(Ids(ids)) && ids[0] == old(ids[0])
    ensures IsIdlAt(ids, ofs) && ids[ofs] == |l| && IdsAt(ids, ofs) == l
  {
    ghost var was := ids[..];
    ids[ofs] := |l|;
    forall j | 0 <= j < |l| { ids[ofs + 1 + j] := l[j]; }
    assert ids[..ofs] == was[..ofs];
    assert Ids(ids) == ids[..ofs][1..ids[0] + 1] == was[..ofs][1..ids[0] + 1];
  }

  /** The loose pages as a sorted list. */
  method SortLoose(loose: seq<nat>) returns (l: seq<Id>)
    requires |loose| < 0x8000_0000 && forall x :: x in loose ==> x <= MAX_ID
    ensures Descending(l) && multiset(l) == multiset(loose)
  {
    var a := new Id[|loose| + 1];
    a[0] := |loose|;
    forall j | 0 <= j < |loose| { a[j + 1] := loose[j]; }
    assert Ids(a) == loose;
    Sort(a);
    l := Ids(a);
  }

  /** What the writer holds in its hand is in no list and below mt_next_pgno. */
  lemma HandApart(s: State, head: seq<Id>, last: nat, loose: seq<nat>, next: nat)
    requires Inv(s) && Holds(s, head, last, loose, next) && s.latest in s.snaps
    ensures s.writer.Some? && s.writer.value.hand !! IdSet(head)
    ensures forall x :: x in s.writer.value.hand ==> x !in loose && 2 <= x < next
  {
    hide Inv;
    WriterParts(s);
    forall x | x in s.writer.value.hand ensures x !in loose && 2 <= x < next {
      assert x in Span(2, next - 2);
      assert x in loose ==> x in Elems(loose);
    }
  }

  lemma HoldsLoose(s: State, head: seq<Id>, last: nat, loose: seq<nat>, next: nat)
    requires Holds(s, head, last, loose, next)
    ensures s.writer.Some? && s.writer.value.loose == Elems(loose) && s.writer.value.head == IdSet(head)
    ensures s.writer.value.next == next
    ensures s.writer.value.phase == Running
  {
  }

  lemma MoreLoose(made: seq<nat>, loose: seq<nat>)
    requires |made| <= 1 && NoRepeats(loose) && Elems(made) !! Elems(loose)
    ensures NoRepeats(made + loose) && Elems(made + loose) == Elems(loose) + Elems(made)
  {
    var t := made + loose;
    forall i, j | 0 <= i < j < |t| ensures t[i] != t[j] {
      if i < |made| { assert t[i] in Elems(made) && t[j] in Elems(loose); }
    }
  }

  lemma EditedCommits(s: State, r: State, e: TreeEdit)
    requires Edited(s, r, e)
    ensures CommitsKept(s, r) && r.oldest == s.oldest && r.disk == s.disk
  {
  }

  lemma RunBounds(head: seq<Id>, pg: nat, n: nat, next: nat)
    requires next >= 2 && Span(pg, n) <= Span(2, next - 2) && Span(pg, n) !! IdSet(head)
    ensures n > 0 ==> pg + n <= next
    ensures forall x :: x in head ==> !(pg <= x < pg + n)
  {
    if n > 0 { assert pg + n - 1 in Span(pg, n); }
    forall x | x in head ensures !(pg <= x < pg + n) {
      assert x in IdSet(head);
      assert pg <= x < pg + n ==> x in Span(pg, n);
    }
  }

  lemma HeadBelow(s: State, head: seq<Id>, last: nat, loose: seq<nat>, next: nat)
    requires Inv(s) && Holds(s, head, last, loose, next) && s.latest in s.snaps
    ensures forall x :: x in head ==> x < next
  {
    hide Inv;
    WriterParts(s);
    forall x | x in head ensures x < next { assert x in IdSet(head); }
  }

  lemma StrictIsDescending(s: seq<Id>)
    requires StrictlyDescending(s)
    ensures Descending(s)
  {
  }

  /** The list with the run back in it. */
  lemma RunReturned(s: seq<Id>, pg: nat, n: nat, next: nat)
    requires StrictlyDescending(s) && n > 0 && pg + n <= next <= MAX_PAGES && (forall x :: x in s ==> x < next)
    requires forall x :: x in s ==> !(pg <= x < pg + n)
    ensures StrictlyDescending(InsertedRun(s, pg, n)) && IdSet(InsertedRun(s, pg, n)) == IdSet(s) + Span(pg, n)
    ensures |s| + n <= next
  {
    hide InsertedRun, Run, StrictlyDescending, Descending, Merge, Span, IdSet;
    StrictIsDescending(s);
    InsertRunIsMerge(s, pg, n);
    RunIsStrict(pg, n);
    RunSet(pg, n);
    RunApart(s, pg, n);
    MergedBounds(s, Run(pg, n), next);
  }

  lemma RunApart(s: seq<Id>, pg: nat, n: nat)
    requires pg + n <= MAX_ID && forall x :: x in s ==> !(pg <= x < pg + n)
    ensures forall x :: x in s ==> x !in Run(pg, n)
    ensures forall x :: x in Run(pg, n) ==> x < pg + n
  {
    hide Run;
    RunIsStrict(pg, n);
  }

  lemma RunIsStrict(pg: nat, n: nat)
    requires pg + n <= MAX_ID
    ensures StrictlyDescending(Run(pg, n)) && forall x: Id :: x in Run(pg, n) <==> pg <= x < pg + n
  {
    var r := Run(pg, n);
    forall x: Id | pg <= x < pg + n ensures x in r { assert r[pg + n - 1 - x] == x; }
  }

  lemma RunSet(pg: nat, n: nat)
    requires pg + n <= MAX_ID
    ensures IdSet(Run(pg, n)) == Span(pg, n) && NoRepeats(Run(pg, n))
  {
    RunIsStrict(pg, n);
    forall x ensures x in IdSet(Run(pg, n)) <==> x in Span(pg, n) {
      if 0 <= x <= MAX_ID { assert x in Run(pg, n) <==> pg <= x < pg + n; }
    }
  }

  lemma InHead(head: seq<Id>, p: nat, num: nat)
    requires p + num <= MAX_ID + 1 && forall x: Id :: p <= x < p + num ==> x in head
    ensures Span(p, num) <= IdSet(head)
  {
    forall x | x in Span(p, num) ensures x in IdSet(head) { assert 0 <= x <= MAX_ID; }
  }

  /** The run found is the last one. */
  lemma OnlyRun(s: seq<Id>, i: nat, num: nat)
    requires i <= |s| && (i != 0 ==> RunEndsAt(s, i, num)) && forall e :: i < e <= |s| ==> !RunEndsAt(s, e, num)
    ensures LastRun(s, |s|, num) == i
  {
    var r := LastRun(s, |s|, num);
    assert i > r ==> !RunEndsAt(s, i, num);
  }

  lemma TooShort(s: seq<Id>, num: nat)
    requires |s| < num
    ensures LastRun(s, |s|, num) == 0
  {
    assert LastRun(s, |s|, num) != 0 ==> RunEndsAt(s, LastRun(s, |s|, num), num);
  }

  lemma WriterThere(s: State, head: seq<Id>, last: nat, loose: seq<nat>, next: nat)
    requires Holds(s, head, last, loose, next)
    ensures s.writer.Some?
  {
  }

  lemma TraceOne(s: State)
    ensures IsTrace([s], s, s) && (s.writer.Some? ==> SameBase(s, s))
  {
  }

  lemma SameBaseTrans(s: State, q: State, r: State)
    requires SameBase(s, q) && SameBase(q, r)
    ensures SameBase(s, r)
  {
  }

  lemma HoldsFrame(s: State, r: State, head: seq<Id>, last: nat, loose: seq<nat>, next: nat)
    requires Holds(s, head, last, loose, next) && r.writer == s.writer
    ensures Holds(r, head, last, loose, next)
  {
  }

  lemma NextIsRecord(m: map<nat, seq<nat>>, last: nat, t: nat)
    requires NextRecord(m, last, t)
    ensures t in m && last < t
  {
  }

  lemma CommitsFacts(s: State, r: State)
    requires CommitsKept(s, r)
    ensures r.latest == s.latest && r.snaps == s.snaps && r.readers == s.readers
  {
  }

  lemma SameRecords(s: State, r: State)
    requires r.latest == s.latest && r.snaps == s.snaps && s.latest in s.snaps
    ensures LatestRecords(r) == LatestRecords(s)
  {
  }

  lemma LatestRecordsSame(s: State, r: State)
    requires CommitsKept(s, r) && s.latest in s.snaps
    ensures LatestRecords(r) == LatestRecords(s)
  {
  }
}
