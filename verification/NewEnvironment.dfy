/** The first commit of a new environment, from the empty file to what a reader then reads. */
module NewEnvironment {
  import opened Idl
  import opened IdlGrow
  import opened Pages
  import opened Mvcc
  import opened MvccProof
  import opened MvccRuns
  import opened Env
  import opened TreeEdits
  import opened Txn
  import opened FreelistRun
  import opened Commit

  lemma InitFacts()
    ensures var s := InitState();
            && Inv(s) && s.writer == None && s.latest == 0 && s.readers == [] && s.oldest == 0 && 0 in s.snaps
            && s.snaps[0] == Snap([], [], 2) && LatestRecords(s) == map[] && RecsMatch([], LatestRecords(s))
            && s.disk == map[]
            && IsRun([s]) && |s.metas| == 2
  {
    hide Inv, Step;
    InitInv();
  }

  lemma FirstBegin(s: State)
    requires s == InitState() && Enabled(s, BeginWrite)
    ensures var r := Apply(s, BeginWrite);
            && r.latest == 0 && r.metas == s.metas && r.disk == map[] && r.snaps == s.snaps && r.writer.Some?
            && r.writer.value == Writer(2, map[], {}, {}, {}, {}, {}, 0, [], [], Running)
  {
  }

  /** With one page in use and nothing in hand the other places are empty. */
  lemma NothingLeft(s: State, np: nat, es: seq<Entry>)
    requires Inv(s) && s.writer.Some? && s.latest == 0 && s.snaps == InitState().snaps
    requires var w := s.writer.value;
             && w.free == [] && w.main == [Node(np, true, es, [], 1)] && w.hand == {} && w.loose == {} && w.next <= 3
    ensures var w := s.writer.value; w.next == 3 && w.head == {} && w.freePgs == {} && w.last == 0 && np == 2
  {
    hide Inv, TreesOk, Shielded, SaveDone, Reach, LatestRecords, ListedAbove, Span, FreeRecords;
    WriterFacts(s);
    var w := s.writer.value;
    OneLeaf(np, es);
    assert np in Span(2, w.next - 2);
    assert Span(2, 1) == {2};
  }

  lemma OneLeaf(np: nat, es: seq<Entry>)
    ensures Reach([Node(np, true, es, [], 1)]) == {np} && Reach([]) == {} && Roots([Node(np, true, es, [], 1)]) == [np]
  {
    OnePage(np);
  }

  lemma EmptyRecorded(last: nat, head: seq<Id>, freed: seq<Id>)
    requires last == 0 && head == [] && freed == []
    ensures Recorded(map[], map[], 1, last, head, freed)
  {
  }

  lemma SomeListed(s: seq<Id>)
    ensures s != [] ==> IdSet(s) != {} && Elems(s) != {}
  {
    if s != [] { assert s[0] in IdSet(s) && s[0] in Elems(s); }
  }

  /** mdb_txn_begin, a put of the first nodes and mdb_txn_commit on a new environment: a run at whose end the second
      meta page, and only it, reads as one leaf with these nodes. */
  method FirstCommit(es: seq<Entry>) returns (disk: File, metas: seq<Meta>, ghost run: seq<State>, ghost r: State)
    ensures IsRun(run) && r == run[|run| - 1] && r.writer == None && r.latest == 1 && r.disk == disk && r.metas == metas
    ensures |metas| == 2 && PickMeta(metas) == 1 && metas[0] == InitState().metas[0]
    ensures Reads(disk, metas[1], [], [Node(2, true, es, [], 1)])
  {
    hide Inv, Step, IsRun, IsTrace, Enabled, Apply, LatestRecords, RecsMatch, Env.Environment.Tied, Linked, SaveDone,
         Recorded,
         Under, Flushed, TreePages, Reach, SameBase;
    ghost var s0 := InitState();
    InitFacts();
    var head := new IdList(255);
    var env := new Environment(s0, [], 0, 0, [], 2, 16, head);
    FirstBegin(s0);
    ghost var s1 := env.st;
    StepIsTrace(s0, s1);
    RunExtended([s0], [s0, s1], s1);
    run := [s0] + [s0, s1][1..];
    var txn := new WriteTxn(env, map[], [], []);
    var np, tr := FirstPage(txn, es);
    RunExtended(run, tr, env.st);
    run := run + tr[1..];
    FirstSaved(txn, np, es);
    ghost var s := env.st;
    FirstUnder(txn, np, es);
    var m: seq<Meta>;
    disk, m, r, tr := CommitTxn([np], {}, txn.mem, map[], [Meta(0, 1, [], []), Meta(0, 1, [], [])], 1, env.nextPgno, [],
      [np], s);
    metas := m;
    RunExtended(run, tr, r);
    run := run + tr[1..];
    FirstRead(r, np, es);
  }

  lemma StepIsTrace(s: State, r: State)
    requires Step(s, r)
    ensures IsTrace([s, r], s, r)
  {
    hide Step;
  }

  /** One page from the allocator becomes the main database. */
  method FirstPage(txn: WriteTxn, es: seq<Entry>) returns (np: nat, ghost tr: seq<State>)
    requires txn.Valid() && txn.env.st.writer.Some? && txn.Hand() == {} && txn.Trees(MainDb) == []
    requires txn.Trees(FreeDb) == []
    requires txn.mem == map[] && txn.freePgs == [] && txn.env.loose == []
    requires txn.env.dirtyRoom > 0 && txn.env.nextPgno == 2 && txn.env.maxpg == 16
    modifies txn, txn.env, txn.env.head, txn.env.head.ids
    ensures txn.Valid() && IsTrace(tr, old(txn.env.st), txn.env.st) && txn.env.st.writer.Some? && txn.Hand() == {}
    ensures txn.Trees(MainDb) == [Node(np, true, es, [], 1)] && txn.Trees(FreeDb) == []
    ensures txn.mem == map[np := Page.Page(true, es, [], 1)] && txn.freePgs == [] && txn.env.loose == []
    ensures txn.env.nextPgno <= 3 && CommitsKept(old(txn.env.st), txn.env.st) && txn.env.st.disk == old(txn.env.st.disk)
  {
    hide Inv, IsTrace, Env.Environment.Tied, Linked, TreePages, SameBase, Step, Content, Span;
    ghost var s := txn.env.st;
    var r;
    r, tr := txn.PageNew(1);
    ghost var q, tr' := txn.env.st, [];
    SameBaseCommits(s, q);
    SameBaseDisk(s, q);
    np := r.pgno;
    OnePage(np);
    assert txn.Others(MainDb) == txn.Trees(FreeDb);
    tr' := txn.FirstLeaf(MainDb, np, es);
    assert txn.Others(MainDb) == txn.Trees(FreeDb);
    TraceJoin(tr, tr', s, q, txn.env.st);
    tr := tr + tr'[1..];
  }

  lemma SameBaseDisk(s: State, r: State)
    requires SameBase(s, r)
    ensures r.disk == s.disk
  {
  }

  /** Nothing is listed anywhere, so the empty freeDB is already saved. */
  lemma FirstSaved(txn: WriteTxn, np: nat, es: seq<Entry>)
    requires txn.Valid() && txn.env.st.writer.Some? && txn.Hand() == {} && txn.env.nextPgno <= 3
    requires txn.Trees(MainDb) == [Node(np, true, es, [], 1)] && txn.Trees(FreeDb) == []
    requires txn.env.loose == [] && txn.env.st.latest == 0 && txn.env.st.snaps == InitState().snaps
    ensures SaveDone(txn.env.st, txn.env.st.writer.value) && txn.env.nextPgno == 3 && np == 2
  {
    hide Inv, Linked, RecsMatch, LatestRecords, SaveDone, Recorded, Enabled;
    var s, env := txn.env.st, txn.env;
    HoldsLoose(s, env.head.View(), env.pglast, env.loose, env.nextPgno);
    NoElems();
    NothingLeft(s, np, es);
    HoldsLast(s, env.head.View(), env.pglast, env.loose, env.nextPgno);
    SomeListed(env.head.View());
    FreeDistinct(s, txn.disk, txn.mem, txn.freePgs, txn.freeRoot, txn.mainRoot);
    SomeListed(txn.freePgs);
    NoRecords(s);
    EmptyRecorded(env.pglast, env.head.View(), txn.freePgs);
    txn.ReadyToSave(map[]);
  }

  lemma HoldsLast(s: State, head: seq<Id>, last: nat, loose: seq<nat>, next: nat)
    requires Holds(s, head, last, loose, next)
    ensures s.writer.Some? && s.writer.value.last == last
  {
  }

  lemma NoRecords(s: State)
    requires s.latest == 0 && s.snaps == InitState().snaps
    ensures s.latest in s.snaps && LatestRecords(s) == map[] && FreeRecords([]) == map[]
  {
  }

  /** What CommitTxn asks of the transaction. */
  lemma FirstUnder(txn: WriteTxn, np: nat, es: seq<Entry>)
    requires txn.Valid() && txn.env.st.writer.Some? && txn.disk == map[]
    requires txn.mem == map[np := Page.Page(true, es, [], 1)]
    requires txn.Trees(MainDb) == [Node(np, true, es, [], 1)] && txn.Trees(FreeDb) == []
    ensures var s := txn.env.st;
            && Inv(s) && Under(s, map[], txn.mem, Running) && s.writer.value.next == txn.env.nextPgno
            && Roots(s.writer.value.free) == [] && Roots(s.writer.value.main) == [np]
            && forall q :: q in [np] <==> q in txn.mem
  {
    hide Inv, RecsMatch, LatestRecords, Linked;
    txn.WriterHere();
    HoldsLoose(txn.env.st, txn.env.head.View(), txn.env.pglast, txn.env.loose, txn.env.nextPgno);
    OneLeaf(np, es);
  }

  lemma FirstRead(r: State, np: nat, es: seq<Entry>)
    requires Inv(r) && r.latest == 1 && 1 in r.snaps && r.snaps[1] == Snap([], [Node(np, true, es, [], 1)], 3)
    requires |r.metas| == 2
    requires r.metas[1] == Meta(1, 2, [], [np]) && r.metas[0] == Meta(0, 1, [], [])
    ensures Reads(r.disk, r.metas[1], [], [Node(np, true, es, [], 1)]) && PickMeta(r.metas) == 1
  {
    hide Inv, Stored, Distinct, Reach;
    assert Live(r, 1);
    LiveFacts(r, 1);
    OneLeaf(np, es);
  }
}
