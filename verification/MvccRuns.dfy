/** What holds over whole runs of the environment: any interleaving of readers, one writer, commits, aborts and
    crashes. */
module MvccRuns {
  import opened Pages
  import opened Mvcc
  import opened MvccProof

  ghost predicate Step(s: State, r: State) {
    exists a :: Enabled(s, a) && r == Apply(s, a)
  }

  ghost predicate IsRun(run: seq<State>) {
    && run != [] && run[0] == InitState()
    && forall i :: 0 <= i < |run| - 1 ==> Step(run[i], run[i + 1])
  }

  /** The invariant holds in every state of every run. */
  lemma {:induction false} RunInv(run: seq<State>, i: nat)
    requires IsRun(run) && i < |run|
    ensures Inv(run[i])
  {
    if i == 0 {
      InitInv();
    } else {
      RunInv(run, i - 1);
      assert Step(run[i - 1], run[i - 1 + 1]);
      var a :| Enabled(run[i - 1], a) && run[i] == Apply(run[i - 1], a);
      StepInv(run[i - 1], a);
    }
  }

  ghost predicate OneMoreSnap(s: State, r: State) {
    r.snaps == s.snaps || (s.latest + 1 in r.snaps && r.snaps == s.snaps[s.latest + 1 := r.snaps[s.latest + 1]])
  }

  /** A step adds a snapshot at most under the next transaction ID, and a reader starts at the last one. */
  lemma StepShape(s: State, a: Action)
    requires MetasOk(s) && Enabled(s, a)
    ensures s.latest <= Apply(s, a).latest
    ensures forall t: nat :: Some(t) in Apply(s, a).readers ==> Some(t) in s.readers || t == s.latest
    ensures OneMoreSnap(s, Apply(s, a))
  {
    PickIsLatest(s);
    match a {
      case Write(act) => WriterShape(s, s.writer.value, act);
      case _ =>
    }
  }

  lemma WriterShape(s: State, w: Writer, a: WriterAction)
    requires s.latest in s.snaps && WriterEnabled(s, w, a)
    ensures ApplyWriter(s, w, a).readers == s.readers
    ensures s.latest <= ApplyWriter(s, w, a).latest
    ensures OneMoreSnap(s, ApplyWriter(s, w, a))
  {
    hide SaveDone, EditOk, LatestRecords, Span;
  }

  /** History is never rewritten, the last transaction ID and the oldest live snapshot never decrease:
      an out-of-date me_pgoldest is still a safe bound. */
  lemma StepMonotone(s: State, a: Action, r: State)
    requires Inv(s) && Enabled(s, a) && r == Apply(s, a)
    ensures s.latest <= r.latest
    ensures Oldest(s) <= Oldest(r)
    ensures forall t :: t in s.snaps ==> t in r.snaps && r.snaps[t] == s.snaps[t]
  {
    StepShape(s, a);
    assert s.latest + 1 !in s.snaps;
    hide Inv, Enabled, Apply;
    OldestMember(r.readers, r.latest, Oldest(s));
  }

  /** Before and after in a run. */
  ghost predicate Grown(s: State, r: State) {
    && s.latest <= r.latest && Oldest(s) <= Oldest(r)
    && forall t :: t in s.snaps ==> t in r.snaps && r.snaps[t] == s.snaps[t]
  }

  lemma StepGrown(s: State, r: State)
    requires Inv(s) && Step(s, r)
    ensures Grown(s, r)
  {
    var a :| Enabled(s, a) && r == Apply(s, a);
    hide Inv, Enabled, Apply;
    StepMonotone(s, a, r);
  }

  lemma GrownTrans(s: State, q: State, r: State)
    requires Grown(s, q) && Grown(q, r)
    ensures Grown(s, r)
  {
    hide Oldest;
  }

  lemma {:induction false} RunMonotone(run: seq<State>, i: nat, j: nat)
    requires IsRun(run) && i <= j < |run|
    ensures Grown(run[i], run[j])
    decreases j
  {
    hide Inv, Step, Oldest;
    if i < j {
      RunMonotone(run, i, j - 1);
      RunInv(run, j - 1);
      assert Step(run[j - 1], run[j - 1 + 1]);
      StepGrown(run[j - 1], run[j]);
      GrownTrans(run[i], run[j - 1], run[j]);
    }
  }

  // ---------------------------------------------------------------- snapshot isolation

  /** What a transaction that started from meta page `m` can read in file d: any trees with the meta's roots. */
  ghost predicate Reads(d: File, m: Meta, free: seq<Tree>, main: seq<Tree>) {
    Roots(free) == m.freeRoot && Roots(main) == m.mainRoot && Stored(d, free) && Stored(d, main)
  }

  /** A reader that took its snapshot in state i, from meta page t & 1, and still holds it in state j, reads in
      state j exactly the trees that transaction t committed: they are all there, and nothing else can be read. */
  lemma SnapshotIsolation(run: seq<State>, i: nat, j: nat, t: nat, free: seq<Tree>, main: seq<Tree>)
    requires IsRun(run) && i <= j < |run|
    requires run[i].latest == t && Some(t) in run[j].readers
    ensures |run[i].metas| == 2 && t in run[i].snaps
    ensures Reads(run[j].disk, run[i].metas[t % 2], free, main)
            <==> free == run[i].snaps[t].free && main == run[i].snaps[t].main
  {
    assert Live(run[j], t);
    hide IsRun, Inv, Live, Oldest, Stored, Distinct, Reach;
    RunInv(run, i);
    RunInv(run, j);
    RunMonotone(run, i, j);
    InvFacts(run[i]);
    LiveFacts(run[j], t);
    var n := run[i].snaps[t];
    var d := run[j].disk;
    if Reads(d, run[i].metas[t % 2], free, main) {
      StoredUnique(d, free, n.free);
      StoredUnique(d, main, n.main);
    }
  }

  /** Pages handed to the writer are reachable from no live reader's snapshot and from neither meta page's. */
  lemma WriterPagesPrivate(run: seq<State>, i: nat, p: nat, t: nat)
    requires IsRun(run) && i < |run| && run[i].writer.Some?
    requires p in run[i].writer.value.owned || p in run[i].writer.value.head
    requires Live(run[i], t)
    ensures t in run[i].snaps && p !in SnapPages(run[i].snaps[t])
  {
    hide IsRun;
    RunInv(run, i);
    WriterFacts(run[i]);
    WriterShields(run[i], run[i].writer.value);
    LiveFacts(run[i], t);
  }

  // ---------------------------------------------------------------- crash atomicity

  lemma RestoreMixes(d: File, e: File, lost: set<nat>)
    ensures forall p :: p in d && p in e ==>
      p in Restore(d, e, lost) && (Restore(d, e, lost)[p] == d[p] || Restore(d, e, lost)[p] == e[p])
  {
  }

  /** Stop in any state, lose any subset of the unsynced writes, restart: the meta page picked names the trees of
      the last commit whose meta page was written, all of whose pages are there. */
  lemma CrashAtomicity(run: seq<State>, i: nat, lost: set<nat>)
    requires IsRun(run) && i < |run|
    ensures var s := run[i];
            var d := Restore(s.disk, s.stable, lost);
            && |s.metas| == 2 && s.latest in s.snaps
            && s.metas[PickMeta(s.metas)].txnid == s.latest
            && TreesOk(d, s.snaps[s.latest].free, s.snaps[s.latest].main)
            && forall free, main :: Reads(d, s.metas[PickMeta(s.metas)], free, main)
                 ==> free == s.snaps[s.latest].free && main == s.snaps[s.latest].main
  {
    hide IsRun, Inv, Stored, Distinct, Reach, Restore;
    RunInv(run, i);
    var s := run[i];
    InvFacts(s);
    var n := s.snaps[s.latest];
    LatestLive(s);
    hide MetasOk, Live;
    LiveFacts(s, s.latest);
    RestoreMixes(s.disk, s.stable, lost);
    var d := Restore(s.disk, s.stable, lost);
    TreesMix(s.disk, s.stable, d, n);
    forall free, main | Reads(d, s.metas[PickMeta(s.metas)], free, main)
      ensures free == n.free && main == n.main
    {
      StoredUnique(d, free, n.free);
      StoredUnique(d, main, n.main);
    }
  }

  /** A commit is all or nothing: no step but the meta write changes what a restart picks. */
  lemma OnlyMetaWriteCommits(run: seq<State>, i: nat, a: Action)
    requires IsRun(run) && i < |run| && Enabled(run[i], a) && a != Write(WriteMeta)
    ensures Apply(run[i], a).metas == run[i].metas && Apply(run[i], a).latest == run[i].latest
  {
    hide IsRun, Inv, MetaOf, WriterEnabled, Oldest, MetasOk;
    RunInv(run, i);
    InvFacts(run[i]);
    PickIsLatest(run[i]);
  }

  /** The meta write makes the writer's trees the picked ones and leaves the previous meta page in place. */
  lemma MetaWriteCommits(run: seq<State>, i: nat, r: State)
    requires IsRun(run) && i < |run| && Enabled(run[i], Write(WriteMeta)) && r == Apply(run[i], Write(WriteMeta))
    ensures var s := run[i]; var w := s.writer.value;
            && |s.metas| == 2 && |r.metas| == 2
            && r.latest == s.latest + 1 && r.latest in r.snaps && r.snaps[r.latest] == Snap(w.free, w.main, w.next)
            && PickMeta(r.metas) == 1 - PickMeta(s.metas)
            && r.metas[PickMeta(r.metas)] == MetaOf(r.latest, r.snaps[r.latest])
            && r.metas[PickMeta(s.metas)] == s.metas[PickMeta(s.metas)]
  {
    hide IsRun, Inv, Oldest;
    RunInv(run, i);
    InvFacts(run[i]);
  }

  // ---------------------------------------------------------------- page conservation

  /** Sum of the lengths of the freeDB's lists: what an audit calls freecount. */
  ghost function FreeCount(recs: map<nat, seq<nat>>): nat
    decreases |recs|
  {
    if recs == map[] then 0
    else
      var t :| t in recs;
      |recs[t]| + FreeCount(recs - {t})
  }

  lemma {:induction false} ElemsSize(s: seq<nat>)
    requires NoRepeats(s)
    ensures |Elems(s)| == |s|
  {
    if s != [] {
      ElemsSize(s[1..]);
      assert Elems(s) == {s[0]} + Elems(s[1..]);
      assert s[0] !in Elems(s[1..]);
    } else {
      assert Elems(s) == {};
    }
  }

  lemma ListedSplit(recs: map<nat, seq<nat>>, t: nat)
    requires t in recs && t > 0
    ensures ListedAbove(recs, 0) == Elems(recs[t]) + ListedAbove(recs - {t}, 0)
  {
    var rest := recs - {t};
    forall p | p in ListedAbove(recs, 0) ensures p in Elems(recs[t]) + ListedAbove(rest, 0) {
      var u :| u in recs && u > 0 && p in recs[u];
      if u != t { assert u in rest && p in rest[u]; }
    }
  }

  lemma {:induction false} FreeCountIsListed(recs: map<nat, seq<nat>>)
    requires ListsApart(recs) && forall t :: t in recs ==> t > 0
    ensures FreeCount(recs) == |ListedAbove(recs, 0)|
    decreases |recs|
  {
    if recs == map[] {
      assert ListedAbove(recs, 0) == {};
    } else {
      var t :| t in recs && FreeCount(recs) == |recs[t]| + FreeCount(recs - {t});
      var rest := recs - {t};
      assert forall u :: u in rest ==> u in recs && rest[u] == recs[u] && u != t;
      FreeCountIsListed(rest);
      ElemsSize(recs[t]);
      ListedSplit(recs, t);
      ListedApartFrom(rest, 0, Elems(recs[t]));
    }
  }

  /** The audit equation, for the last commit in every state of every run: the freeDB's count, the pages of both
      trees and the two meta pages add up to the first unused page number. */
  lemma AuditEquation(run: seq<State>, i: nat)
    requires IsRun(run) && i < |run|
    ensures var s := run[i];
            && s.latest in s.snaps
            && FreeCount(LatestRecords(s)) + CountPages(s.snaps[s.latest].free) + CountPages(s.snaps[s.latest].main) + 2
               == s.snaps[s.latest].next
  {
    hide IsRun, Inv, Stored, Distinct, Reach, Live, MetasOk, LatestRecords, ListsApart, ListedAbove, FreeCount;
    RunInv(run, i);
    var s := run[i];
    InvFacts(s);
    LatestLive(s);
    LiveFacts(s, s.latest);
    RecordsFacts(s);
    var n := s.snaps[s.latest];
    FreeCountIsListed(LatestRecords(s));
    CountIsReach(n.free);
    CountIsReach(n.main);
    assert |Span(2, n.next - 2)| == n.next - 2;
    UnionSize(ListedAbove(LatestRecords(s), 0), Reach(n.free), Reach(n.main));
  }

  lemma UnionSize(a: set<nat>, b: set<nat>, c: set<nat>)
    requires a !! b + c && b !! c
    ensures |a + (b + c)| == |a| + |b| + |c|
  {
  }

  /** The same inside a transaction, before anything is committed: every page is in exactly one place. */
  lemma ConservationInTxn(run: seq<State>, i: nat)
    requires IsRun(run) && i < |run| && run[i].writer.Some?
    ensures var s := run[i]; var w := s.writer.value;
            && s.latest in s.snaps && w.next >= 2
            && Partition(TreePages(w), w.hand, ListedAbove(LatestRecords(s), w.last), w.head, w.freePgs, w.loose,
                 Span(2, w.next - 2))
  {
    hide IsRun, Inv, Partition;
    RunInv(run, i);
    WriterFacts(run[i]);
  }
}
