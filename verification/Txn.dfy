/** What a write transaction does to pages: touch, merge, split, free, drop. Each method changes the dirty pages and
    the page lists as the code does, and is shown to be an edit of the state machine. */
module Txn {
  import opened Idl
  import opened IdlPages
  import opened Pages
  import opened Forest
  import opened Mvcc
  import opened MvccProof
  import opened MvccRuns
  import opened Env
  import FreelistRun
  import opened TreeEdits

  // ---------------------------------------------------------------- the transaction's variables

  /** A dirty page and the pages it spans belong to the transaction. */
  ghost predicate SpansOwned(mem: File, owned: set<nat>) {
    forall q :: q in mem ==> Span(q, mem[q].span) <= owned
  }

  /** The transaction's own variables against the state. */
  ghost predicate Linked(s: State, disk: File, mem: File, freePgs: seq<Id>, freeRoot: seq<nat>, mainRoot: seq<nat>) {
    && s.writer.Some? && s.disk == disk
    && var w := s.writer.value;
       && w.mem == mem && w.freePgs == IdSet(freePgs) && Roots(w.free) == freeRoot && Roots(w.main) == mainRoot
       && SpansOwned(mem, w.owned) && NoRepeats(freePgs)
  }

  lemma LinkedBase(s: State, r: State, disk: File, mem: File, freePgs: seq<Id>, freeRoot: seq<nat>, mainRoot: seq<nat>)
    requires Linked(s, disk, mem, freePgs, freeRoot, mainRoot) && SameBase(s, r)
    ensures Linked(r, disk, mem, freePgs, freeRoot, mainRoot)
    ensures forall dbi :: TreesOf(r.writer.value, dbi) == TreesOf(s.writer.value, dbi)
    ensures forall dbi :: OthersOf(r.writer.value, dbi) == OthersOf(s.writer.value, dbi)
  {
  }

  /** An edit of one database's trees, with the dirty pages, the free list and the root number updated to match. */
  lemma LinkedEdit(s: State, r: State, dbi: Dbi, ts: seq<Tree>, disk: File, mem: File, mem': File, hand: set<nat>,
                   freePgs: seq<Id>, freed: seq<Id>, made: set<nat>, back: set<nat>, freeRoot: seq<nat>,
                     mainRoot: seq<nat>, root: seq<nat>)
    requires Linked(s, disk, mem, freePgs, freeRoot, mainRoot)
    requires Edited(s, r, EditOf(s.writer.value, dbi, ts, mem', hand, IdSet(freed), made, back))
    requires Roots(ts) == root && SpansOwned(mem', s.writer.value.owned)
    requires NoRepeats(freed) && IdSet(freed) !! s.writer.value.freePgs
    ensures Linked(r, disk, mem', freePgs + freed, if dbi.FreeDb? then root else freeRoot, if dbi.FreeDb? then mainRoot
      else root)
    ensures r.writer.Some? && TreesOf(r.writer.value, dbi) == ts && r.writer.value.hand == hand
    ensures OthersOf(r.writer.value, dbi) == OthersOf(s.writer.value, dbi)
    ensures r.writer.value.owned == s.writer.value.owned
  {
    IdSetConcat(freePgs, freed);
    TwoLists(freePgs, freed);
  }

  lemma TwoLists(a: seq<Id>, b: seq<Id>)
    requires NoRepeats(a) && NoRepeats(b) && IdSet(a) !! IdSet(b)
    ensures NoRepeats(a + b)
  {
    var s := a + b;
    forall i, j | 0 <= i < j < |s| ensures s[i] != s[j] {
      if i < |a| <= j { assert s[i] in IdSet(a) && s[j] in IdSet(b); }
    }
  }

  lemma EditFields(w: Writer, dbi: Dbi, ts: seq<Tree>, mem: File, hand: set<nat>, toFree: set<nat>, toLoose: set<nat>,
                   toHead: set<nat>)
    ensures var e := EditOf(w, dbi, ts, mem, hand, toFree, toLoose, toHead);
            e.toHead == toHead && e.toLoose == toLoose && e.toFree == toFree
  {
  }

  lemma LinkedFacts(s: State, disk: File, mem: File, freePgs: seq<Id>, freeRoot: seq<nat>, mainRoot: seq<nat>)
    requires Linked(s, disk, mem, freePgs, freeRoot, mainRoot)
    ensures s.writer.Some? && s.disk == disk && s.writer.value.mem == mem && s.writer.value.freePgs == IdSet(freePgs)
    ensures Roots(s.writer.value.free) == freeRoot && Roots(s.writer.value.main) == mainRoot
    ensures SpansOwned(mem, s.writer.value.owned)
  {
  }

  lemma LinkedStart(s: State, disk: File, freeRoot: seq<nat>, mainRoot: seq<nat>)
    requires s.writer.Some? && s.disk == disk
    requires var w := s.writer.value;
             w.mem == map[] && w.freePgs == {} && Roots(w.free) == freeRoot && Roots(w.main) == mainRoot
    ensures Linked(s, disk, map[], [], freeRoot, mainRoot)
  {
    assert IdSet([]) == {};
  }

  lemma IdSetConcat(s: seq<Id>, t: seq<Id>)
    ensures IdSet(s + t) == IdSet(s) + IdSet(t)
  {
  }

  lemma TraceJoin(a: seq<State>, b: seq<State>, s: State, q: State, r: State)
    requires IsTrace(a, s, q) && IsTrace(b, q, r)
    ensures b != [] && IsTrace(a + b[1..], s, r)
  {
    hide Step;
    var t := a + b[1..];
    forall i | 0 <= i < |t| - 1 ensures Step(t[i], t[i + 1]) {
      if i < |a| - 1 {
        assert t[i] == a[i] && t[i + 1] == a[i + 1];
      } else {
        assert t[i] == b[i - (|a| - 1)] && t[i + 1] == b[i - (|a| - 1) + 1];
      }
    }
  }

  /** The loose list after one page was touched. */
  function TouchedLoose(clean: bool, loose: seq<nat>): seq<nat> {
    if clean && loose != [] then loose[1..] else loose
  }

  /** mt_free_pgs after page pg was touched. */
  function TouchedFreed(clean: bool, freed: seq<nat>, pg: nat): seq<nat> {
    if clean then freed + [pg] else freed
  }

  /** The source page of a merge is the first loose page, or the last freed one. */
  ghost predicate SourceGone(loosen: bool, src: nat, loose: seq<nat>, loose': seq<nat>, freed: seq<nat>,
                             freed': seq<nat>) {
    if loosen then loose' == [src] + loose && freed' == freed else loose' == loose && freed' == freed + [src]
  }

  class WriteTxn {
    const env: Environment
    const disk: File             // the data file as mapped
    var mem: File                // dirty pages
    var freePgs: seq<Id>         // mt_free_pgs
    var freeRoot: seq<nat>       // md_root of the freeDB, empty for P_INVALID
    var mainRoot: seq<nat>       // md_root of the main DB

    ghost predicate Valid()
      reads this, env, env.head, env.head.ids
    {
      env.Valid() && Linked(env.st, disk, mem, freePgs, freeRoot, mainRoot) && |freeRoot| <= 1 && |mainRoot| <= 1
    }

    ghost function Trees(dbi: Dbi): seq<Tree>
      requires env.st.writer.Some?
      reads this, env`st
    {
      TreesOf(env.st.writer.value, dbi)
    }

    ghost function Others(dbi: Dbi): seq<Tree>
      requires env.st.writer.Some?
      reads this, env`st
    {
      OthersOf(env.st.writer.value, dbi)
    }

    ghost function Hand(): set<nat>
      requires env.st.writer.Some?
      reads this, env`st
    {
      env.st.writer.value.hand
    }

    predicate Dirty(pg: nat)
      reads this
    {
      pg in mem
    }

    constructor (env: Environment, disk: File, freeRoot: seq<nat>, mainRoot: seq<nat>)
      requires env.Valid() && env.st.writer.Some? && env.st.disk == disk
      requires var w := env.st.writer.value;
               w.mem == map[] && w.freePgs == {} && Roots(w.free) == freeRoot && Roots(w.main) == mainRoot
      requires |freeRoot| <= 1 && |mainRoot| <= 1
      ensures Valid() && this.env == env && this.disk == disk && mem == map[] && freePgs == []
    {
      hide Linked, Inv, Env.Environment.Tied;
      LinkedStart(env.st, disk, freeRoot, mainRoot);
      this.env, this.disk, this.freeRoot, this.mainRoot := env, disk, freeRoot, mainRoot;
      mem, freePgs := map[], [];
    }

    function Root(dbi: Dbi): seq<nat>
      reads this
    {
      if dbi.FreeDb? then freeRoot else mainRoot
    }

    lemma WriterHere()
      requires Valid()
      ensures env.st.writer.Some? && Inv(env.st) && env.st.latest in env.st.snaps
      ensures Root(FreeDb) == Roots(Trees(FreeDb))
              && Root(MainDb) == Roots(Trees(MainDb)) && env.st.disk == disk && env.st.writer.value.mem == mem
              && SpansOwned(mem, env.st.writer.value.owned)
    {
      hide Inv, Linked, SpansOwned, Roots, Env.Environment.Tied;
      LinkedFacts(env.st, disk, mem, freePgs, freeRoot, mainRoot);
      env.TiedFacts();
    }

    /** The writer's variables after one database's trees were edited: the new root number, more pages freed. */
    method Change(dbi: Dbi, ghost ts: seq<Tree>, mem': File, ghost hand: set<nat>, freed: seq<Id>, made: seq<nat>,
                  root: seq<nat>)
      returns (ghost tr: seq<State>)
      requires Valid() && env.st.writer.Some? && |root| <= 1 && Roots(ts) == root
      requires SpansOwned(mem', env.st.writer.value.owned) && |made| <= 1 && NoRepeats(freed)
      requires EditOk(env.st, env.st.writer.value,
        EditOf(env.st.writer.value, dbi, ts, mem', hand, IdSet(freed), Elems(made), {}))
      modifies this`mem, this`freePgs, this`freeRoot, this`mainRoot, env`st, env`loose
      ensures Valid() && IsTrace(tr, old(env.st), env.st) && env.st.writer.Some?
      ensures Trees(dbi) == ts && Others(dbi) == old(Others(dbi)) && Hand() == hand
      ensures env.st.writer.value.owned == old(env.st.writer.value.owned)
      ensures mem == mem' && freePgs == old(freePgs) + freed && env.loose == made + old(env.loose) && Root(dbi) == root
      ensures CommitsKept(old(env.st), env.st) && env.st.disk == old(env.st.disk)
    {
      hide Inv, IsTrace, EditOk, EditOf, IdSet, Elems, TreesOf, OthersOf, Env.Environment.Tied, Step, Linked, Edited,
           SpansOwned, Roots;
      WriterHere();
      ghost var s := env.st;
      ghost var e := EditOf(s.writer.value, dbi, ts, mem', hand, IdSet(freed), Elems(made), {});
      EditFields(s.writer.value, dbi, ts, mem', hand, IdSet(freed), Elems(made), {});
      EditApart(s, e);
      tr := env.EditTrees(e, made);
      EditedCommits(s, env.st, e);
      LinkedEdit(s, env.st, dbi, ts, disk, mem, mem', hand, freePgs, freed, Elems(made), {}, freeRoot, mainRoot, root);
      mem, freePgs := mem', freePgs + freed;
      freeRoot, mainRoot := if dbi.FreeDb? then root else freeRoot, if dbi.FreeDb? then mainRoot else root;
    }

    /** A subtree is exchanged for another: one step of the state machine. */
    method Exchange(dbi: Dbi, ghost p: seq<nat>, ghost t: Tree, mem': File, ghost hand: set<nat>, freed: seq<Id>,
                    made: seq<nat>, root: seq<nat>)
      returns (ghost tr: seq<State>)
      requires Valid() && env.st.writer.Some? && |made| <= 1 && NoRepeats(freed)
      requires SpansOwned(mem', env.st.writer.value.owned)
      requires Exchanged(env.st, dbi, p, t, mem', hand, IdSet(freed), Elems(made), {})
      requires root == if |p| == 1 then Root(dbi)[p[0] := t.pgno] else Root(dbi)
      modifies this`mem, this`freePgs, this`freeRoot, this`mainRoot, env`st, env`loose
      ensures Valid() && IsTrace(tr, old(env.st), env.st) && env.st.writer.Some?
      ensures Trees(dbi) == Put(old(Trees(dbi)), p, t) && Others(dbi) == old(Others(dbi)) && Hand() == hand
      ensures env.st.writer.value.owned == old(env.st.writer.value.owned)
      ensures mem == mem' && freePgs == old(freePgs) + freed && env.loose == made + old(env.loose) && Root(dbi) == root
      ensures CommitsKept(old(env.st), env.st) && env.st.disk == old(env.st.disk)
    {
      hide Inv, IsTrace, EditOk, Exchanged, Put, Env.Environment.Tied, Step, Linked, SpansOwned, Roots;
      WriterHere();
      ghost var ts := Trees(dbi);
      PageEdit(env.st, dbi, p, t, mem', hand, IdSet(freed), Elems(made), {});
      PutRoots(ts, p, t);
      tr := Change(dbi, Put(ts, p, t), mem', hand, freed, made, root);
    }

    /** As Exchange, when a run of pages goes back to me_pghead. */
    method ExchangeBack(dbi: Dbi, ghost p: seq<nat>, ghost t: Tree, mem': File, pg: nat, n: nat, root: seq<nat>)
      returns (ghost tr: seq<State>)
      requires Valid() && env.st.writer.Some? && n > 0 && SpansOwned(mem', env.st.writer.value.owned)
      requires Exchanged(env.st, dbi, p, t, mem', Hand(), {}, {}, Span(pg, n))
      requires root == if |p| == 1 then Root(dbi)[p[0] := t.pgno] else Root(dbi)
      modifies this`mem, this`freePgs, this`freeRoot, this`mainRoot, env`st, env.head, env.head.ids
      ensures Valid() && IsTrace(tr, old(env.st), env.st) && env.st.writer.Some?
      ensures Trees(dbi) == Put(old(Trees(dbi)), p, t) && Others(dbi) == old(Others(dbi)) && Hand() == old(Hand())
      ensures mem == mem' && freePgs == old(freePgs)
      ensures pg + n <= MAX_ID && env.head.View() == InsertedRun(old(env.head.View()), pg, n)
    {
      hide Inv, IsTrace, EditOk, EditOf, Exchanged, Put, Env.Environment.Tied, Step, Linked, Edited, SpansOwned, Roots,
           IdSet, TreesOf,
           OthersOf, InsertedRun, Span;
      WriterHere();
      ghost var s, ts := env.st, Trees(dbi);
      ghost var w := s.writer.value;
      PageEdit(s, dbi, p, t, mem', w.hand, {}, {}, Span(pg, n));
      PutRoots(ts, p, t);
      ghost var e := EditOf(w, dbi, Put(ts, p, t), mem', w.hand, {}, {}, Span(pg, n));
      EditFields(w, dbi, Put(ts, p, t), mem', w.hand, {}, {}, Span(pg, n));
      tr := env.EditReturning(e, pg, n);
      NoIds(freePgs);
      LinkedEdit(s, env.st, dbi, Put(ts, p, t), disk, mem, mem', w.hand, freePgs, [], {}, Span(pg, n), freeRoot,
        mainRoot, root);
      mem := mem';
      freeRoot, mainRoot := if dbi.FreeDb? then root else freeRoot, if dbi.FreeDb? then mainRoot else root;
    }

    /** A whole database goes: its pages are freed, its root is P_INVALID. */
    method Clear(dbi: Dbi, freed: seq<Id>) returns (ghost tr: seq<State>)
      requires Valid() && env.st.writer.Some? && IdSet(freed) == Reach(Trees(dbi)) && NoRepeats(freed)
      modifies this`mem, this`freePgs, this`freeRoot, this`mainRoot, env`st, env`loose
      ensures Valid() && IsTrace(tr, old(env.st), env.st) && env.st.writer.Some?
      ensures Trees(dbi) == [] && Root(dbi) == [] && Others(dbi) == old(Others(dbi)) && Hand() == old(Hand())
      ensures mem == old(mem) && freePgs == old(freePgs) + freed && env.loose == old(env.loose)
    {
      hide Inv, IsTrace, EditOk, EditOf, Env.Environment.Tied, Step, Linked, SpansOwned, IdSet, Elems, Stored,
           Distinct, Reach;
      WriterHere();
      ghost var s := env.st;
      WriterTrees(s, dbi);
      NoTrees(View(disk, mem));
      NoElems();
      ForestEdit(s, dbi, [], mem, Hand(), IdSet(freed), {}, {});
      tr := Change(dbi, [], mem, Hand(), freed, [], []);
    }

    /** A page as this transaction sees it. */
    function PageAt(pg: nat): Page
      requires pg in mem || pg in disk
      reads this
    {
      if pg in mem then mem[pg] else disk[pg]
    }

    /** The second half of mdb_page_touch: the clean page on top of the stack is copied to page np of the hand. */
    method CopyPage(dbi: Dbi, pgs: seq<nat>, ki: seq<nat>, np: nat) returns (ghost tr: seq<State>)
      requires Valid() && env.st.writer.Some? && |pgs| == |ki| > 0 && OnStack(Trees(dbi), pgs, ki) && np in Hand()
      requires At(Trees(dbi), PathTo(ki, |pgs| - 1)).span == 1
      requires !Dirty(pgs[|pgs| - 1]) && (|pgs| > 1 ==> Dirty(pgs[|pgs| - 2]))
      modifies this`mem, this`freePgs, this`freeRoot, this`mainRoot, env`st, env`loose
      ensures Valid() && IsTrace(tr, old(env.st), env.st) && env.st.writer.Some? && Hand() == old(Hand()) - {np}
      ensures Trees(dbi) == Put(old(Trees(dbi)), PathTo(ki, |pgs| - 1),
        At(old(Trees(dbi)), PathTo(ki, |pgs| - 1)).(pgno := np))
      ensures Others(dbi) == old(Others(dbi)) && env.loose == old(env.loose)
      ensures pgs[|pgs| - 1] in disk && Dirty(np) && mem[np] == disk[pgs[|pgs| - 1]] && mem.Keys == old(mem.Keys) + {np}
      ensures pgs[|pgs| - 1] <= MAX_ID && freePgs == old(freePgs) + [pgs[|pgs| - 1]]
    {
      hide Inv, IsTrace, Stored, Distinct, Reach, OnStack, Exchanged, Env.Environment.Tied, Step, Put, Linked,
           SpansOwned, PageOf, Touched, TreePages, Roots;
      WriterHere();
      WriterTrees(env.st, dbi);
      StackPages(View(disk, mem), Trees(dbi), pgs, ki);
      env.TreesBelow();
      var top := |pgs| - 1;
      var mp: nat := pgs[top];
      ghost var s, ts, p := env.st, Trees(dbi), PathTo(ki, top);
      ghost var w, t := s.writer.value, At(ts, p).(pgno := np);
      var mem' := mem;
      if top > 0 {
        var parent := mem[pgs[top - 1]];
        ParentPage(ts, p, t);
        PageKids(ParentOf(ts, p));
        mem' := mem'[pgs[top - 1] := parent.(kids := parent.kids[ki[top - 1] := np])];
      }
      mem' := mem'[np := disk[mp]];
      TouchIs(mem, ts, p, np);
      assert mem' == Touched(mem, ts, p, np);
      TouchSpans(mem, ts, p, np, w.owned);
      TouchExchanges(s, dbi, p, np);
      SetOfOne(mp);
      tr := Exchange(dbi, p, t, mem', w.hand - {np}, [mp], [], if top > 0 then Root(dbi) else [np]);
    }

    /** mdb_page_new: pages from the allocator, now in the writer's hand. */
    method PageNew(num: nat) returns (r: AllocResult, ghost tr: seq<State>)
      requires Valid() && env.st.writer.Some? && num >= 1
      modifies env, env.head, env.head.ids
      ensures Valid() && IsTrace(tr, old(env.st), env.st) && env.st.writer.Some? && SameBase(old(env.st), env.st)
      ensures Hand() == old(Hand()) + if r.Page? then Span(r.pgno, num) else {}
      ensures r.Page? ==> Span(r.pgno, num) !! old(Hand()) + old(TreePages(env.st.writer.value))
      ensures forall dbi :: Trees(dbi) == old(Trees(dbi)) && Others(dbi) == old(Others(dbi))
      ensures r == old(env.Outcome(num))
      ensures r.TxnFull? ==> old(env.dirtyRoom) == 0 && (num > 1 || old(env.loose) == [])
      ensures r.MapFull? ==>
        old(env.nextPgno) + num >= env.maxpg && (num > 1 || old(env.loose) == []) && old(env.Search(num)).i == 0
      ensures env.nextPgno == old(env.nextPgno) || env.nextPgno == old(env.nextPgno) + num
      ensures if num == 1 && old(env.loose) != [] then Reused(old(env.loose), env.loose)
        else env.loose == old(env.loose)
    {
      hide Inv, IsTrace, Env.Environment.Tied, Step, Linked, TreePages, SameBase, Shielded, Span, Allocated, Fetched,
           Env.Environment.Outcome, Env.Environment.Search;
      env.TiedFacts();
      ghost var s := env.st;
      r, tr := env.PageAlloc(num);
      LinkedBase(s, env.st, disk, mem, freePgs, freeRoot, mainRoot);
      SameTreePages(s, env.st);
      if r.Page? { HandOutsideAll(env.st, Span(r.pgno, num)); }
    }

    /** mdb_page_touch on top of a stack whose other pages are dirty: afterwards the top page is dirty too. A clean
        page is copied to a newly allocated one, which its parent or the database's root then names, and its number is
        freed; the contents of the trees stay. The whole is a run of the state machine. */
    method PageTouch(dbi: Dbi, pgs: seq<nat>, ki: seq<nat>) returns (r: AllocResult, ghost tr: seq<State>)
      requires Valid() && env.st.writer.Some? && |pgs| == |ki| > 0 && OnStack(Trees(dbi), pgs, ki)
      requires At(Trees(dbi), PathTo(ki, |pgs| - 1)).span == 1 && (|pgs| > 1 ==> Dirty(pgs[|pgs| - 2]))
      modifies this, env, env.head, env.head.ids
      ensures Valid() && IsTrace(tr, old(env.st), env.st) && env.st.writer.Some? && Hand() == old(Hand())
      ensures Others(dbi) == old(Others(dbi)) && Content(Trees(dbi)) == old(Content(Trees(dbi)))
      ensures if r.Page? then OnStack(Trees(dbi), pgs[|pgs| - 1 := r.pgno], ki) && Dirty(r.pgno) &&
        mem.Keys == old(mem.Keys) + {r.pgno}
              else Trees(dbi) == old(Trees(dbi)) && mem == old(mem) && freePgs == old(freePgs)
      ensures r.Page? ==>
                Trees(dbi) == Put(old(Trees(dbi)), PathTo(ki, |pgs| - 1),
                  At(old(Trees(dbi)), PathTo(ki, |pgs| - 1)).(pgno := r.pgno))
      ensures old(Dirty(pgs[|pgs| - 1])) ==>
                r == AllocResult.Page(pgs[|pgs| - 1]) && mem == old(mem) && freePgs == old(freePgs) &&
                  env.loose == old(env.loose)
      ensures !old(Dirty(pgs[|pgs| - 1])) ==>
                && r == old(env.Outcome(1))
                && (r.TxnFull? ==> old(env.dirtyRoom) == 0 && old(env.loose) == [])
                && (r.MapFull? ==> old(env.nextPgno) + 1 >= env.maxpg && old(env.loose == [] && env.Search(1).i == 0))
                && if old(env.loose) != [] then Reused(old(env.loose), env.loose) else env.loose == []
      ensures r.Page? && !old(Dirty(pgs[|pgs| - 1])) ==>
                && pgs[|pgs| - 1] in disk && mem[r.pgno] == disk[pgs[|pgs| - 1]]
                && r.pgno !in old(TreePages(env.st.writer.value))
                && pgs[|pgs| - 1] <= MAX_ID && freePgs == old(freePgs) + [pgs[|pgs| - 1]]
    {
      hide Inv, IsTrace, OnStack, Env.Environment.Tied, Step, Put, Linked, TreePages, SameBase, Content, Shielded,
           Env.Environment.Outcome, Env.Environment.Search;
      env.TiedFacts();
      ghost var s, ts, p := env.st, Trees(dbi), PathTo(ki, |pgs| - 1);
      StackOnForest(ts, pgs, ki);
      if Dirty(pgs[|pgs| - 1]) {
        TraceOne(s);
        PutSame(ts, p);
        return AllocResult.Page(pgs[|pgs| - 1]), [s];
      }
      r, tr := PageNew(1);
      if r.Page? {
        OnePage(r.pgno);
        ghost var tr', q;
        q := env.st;
        SameTreePages(s, q);
        tr' := CopyPage(dbi, pgs, ki, r.pgno);
        TraceJoin(tr, tr', s, q, env.st);
        tr := tr + tr'[1..];
        StackKept(ts, pgs, ki, At(ts, p).(pgno := r.pgno));
        RenumberedContent(ts, p, r.pgno);
      }
    }

    /** The second half of mdb_page_merge, when the destination is dirty: the nodes of its right neighbour are
        appended to it, the parent forgets the neighbour, and mdb_page_loose puts that page on the loose list when it
        is dirty and not the freeDB's, else on mt_free_pgs. */
    method Combine(dbi: Dbi, pgs: seq<nat>, ki: seq<nat>) returns (ghost tr: seq<State>)
      requires Valid() && env.st.writer.Some? && |pgs| == |ki| > 1 && OnStack(Trees(dbi), pgs, ki)
      requires Dirty(pgs[|pgs| - 1]) && Dirty(pgs[|pgs| - 2])
      requires OnForest(Trees(dbi), PathTo(ki, |ki| - 2))
      requires ki[|ki| - 2] + 1 < |At(Trees(dbi), PathTo(ki, |ki| - 2)).kids|
      requires var b := At(Trees(dbi), PathTo(ki, |ki| - 2)); Siblings(b.kids[ki[|ki| - 2]], b.kids[ki[|ki| - 2] + 1])
      modifies this`mem, this`freePgs, this`freeRoot, this`mainRoot, env`st, env`loose
      ensures Valid() && IsTrace(tr, old(env.st), env.st) && env.st.writer.Some? && Hand() == old(Hand())
      ensures Trees(dbi) == Put(old(Trees(dbi)), PathTo(ki, |ki| - 2),
        Merged(old(At(Trees(dbi), PathTo(ki, |ki| - 2))), ki[|ki| - 2]))
      ensures Others(dbi) == old(Others(dbi)) && Content(Trees(dbi)) == old(Content(Trees(dbi)))
      ensures var src := old(At(Trees(dbi), PathTo(ki, |ki| - 2)).kids[ki[|ki| - 2] + 1].pgno);
              src <= MAX_ID && if old(Dirty(src)) && dbi.MainDb? then env.loose == [src] + old(env.loose) &&
                freePgs == old(freePgs)
              else env.loose == old(env.loose) && freePgs == old(freePgs) + [src]
    {
      hide Inv, IsTrace, OnStack, Stored, Distinct, Reach, Env.Environment.Tied, Step, Put, Linked, TreePages, Content,
           PageOf,
           Exchanged, SpansOwned, MergedMem, Roots;
      WriterHere();
      env.TreesBelow();
      var up, i := pgs[|pgs| - 2], ki[|ki| - 2];
      ghost var s, ts, p := env.st, Trees(dbi), PathTo(ki, |ki| - 2);
      ghost var b := At(ts, p);
      WriterTrees(s, dbi);
      MergeReads(View(disk, mem), ts, pgs, ki);
      MergedPage(b, i);
      var parent := mem[up];
      var dst, src := pgs[|pgs| - 1], parent.kids[i + 1];
      JoinedPage(b.kids[i], b.kids[i + 1]);
      var from := PageAt(src);
      var mem' := mem[up := parent.(kids := parent.kids[..i + 1] + parent.kids[i + 2..])];
      mem' := mem'[dst := mem[dst].(entries := mem[dst].entries + from.entries, kids := mem[dst].kids + from.kids)];
      MergedIs(mem, b, i);
      assert mem' == MergedMem(mem, b, i);
      var loosen := Dirty(src) && dbi.MainDb?;
      var freed, made := if loosen then [] else [src], if loosen then [src] else [];
      ElemsOfOne(src);
      SetOfOne(src);
      MergeExchanges(s, dbi, p, i, IdSet(freed), Elems(made));
      MergeSpans(mem, mem', s.writer.value.owned, up, dst);
      MergedContent(b, i);
      PutContent(ts, p, Merged(b, i));
      if |p| == 1 { SameRoot(ts, p, b.pgno); }
      tr := Exchange(dbi, p, Merged(b, i), mem', Hand(), freed, made, Root(dbi));
    }

    /** mdb_page_merge: the destination on top of the stack is touched, then takes the nodes of its right neighbour. */
    method MergePages(dbi: Dbi, pgs: seq<nat>, ki: seq<nat>) returns (r: AllocResult, ghost tr: seq<State>)
      requires Valid() && env.st.writer.Some? && |pgs| == |ki| > 1 && OnStack(Trees(dbi), pgs, ki)
      requires Dirty(pgs[|pgs| - 2])
      requires OnForest(Trees(dbi), PathTo(ki, |ki| - 2))
      requires ki[|ki| - 2] + 1 < |At(Trees(dbi), PathTo(ki, |ki| - 2)).kids|
      requires var b := At(Trees(dbi), PathTo(ki, |ki| - 2)); Siblings(b.kids[ki[|ki| - 2]], b.kids[ki[|ki| - 2] + 1])
      modifies this, env, env.head, env.head.ids
      ensures Valid() && IsTrace(tr, old(env.st), env.st) && env.st.writer.Some? && Hand() == old(Hand())
      ensures Others(dbi) == old(Others(dbi)) && Content(Trees(dbi)) == old(Content(Trees(dbi)))
      ensures r.Page? ==>
                var b, i := old(At(Trees(dbi), PathTo(ki, |ki| - 2))), ki[|ki| - 2];
                Trees(dbi) == Put(old(Trees(dbi)), PathTo(ki, |ki| - 2),
                  Merged(b.(kids := b.kids[i := b.kids[i].(pgno := r.pgno)]), i))
      ensures r == if old(Dirty(pgs[|pgs| - 1])) then AllocResult.Page(pgs[|pgs| - 1]) else old(env.Outcome(1))
      ensures r.TxnFull? ==> !old(Dirty(pgs[|pgs| - 1])) && old(env.dirtyRoom) == 0 && old(env.loose) == []
      ensures r.MapFull? ==>
        && !old(Dirty(pgs[|pgs| - 1])) && old(env.nextPgno) + 1 >= env.maxpg
        && old(env.loose == [] && env.Search(1).i == 0)
      ensures r.Page? ==>
                var src := old(At(Trees(dbi), PathTo(ki, |ki| - 2)).kids[ki[|ki| - 2] + 1].pgno);
                SourceGone(old(Dirty(src)) && dbi.MainDb?, src,
                           TouchedLoose(!old(Dirty(pgs[|pgs| - 1])), old(env.loose)), env.loose,
                           TouchedFreed(!old(Dirty(pgs[|pgs| - 1])), old(freePgs), pgs[|pgs| - 1]), freePgs)
      ensures !r.Page? ==> Trees(dbi) == old(Trees(dbi)) && mem == old(mem) && freePgs == old(freePgs)
    {
      hide Inv, IsTrace, OnStack, Env.Environment.Tied, Step, Linked, TreePages, Content, Merged, SameBase, Stored,
           Distinct, Reach, PageOf, View, Roots, Put, Kept, OthersOf, IdSet, Elems, Shielded, SpansOwned,
           Env.Environment.Outcome, Env.Environment.Search;
      env.TiedFacts();
      ghost var s, ts, p, q := env.st, Trees(dbi), PathTo(ki, |pgs| - 1), PathTo(ki, |ki| - 2);
      DestinationFacts(ts, pgs, ki);
      WriterHere();
      WriterTrees(s, dbi);
      MergeReads(View(disk, mem), ts, pgs, ki);
      r, tr := PageTouch(dbi, pgs, ki);
      if r.Page? {
        ghost var t := At(ts, p).(pgno := r.pgno);
        PutParent(ts, p, t);
        PutParentSame(ts, p, t, Merged(At(Trees(dbi), q), ki[|ki| - 2]));
        ghost var tr', s' := [], env.st;
        tr' := Combine(dbi, pgs[|pgs| - 1 := r.pgno], ki);
        TraceJoin(tr, tr', s, s', env.st);
        tr := tr + tr'[1..];
      }
    }

    /** What a split does to pages, once the allocated page np is at hand: the child on top of the stack keeps the nodes
        `left` and its first m children, np gets the rest and stands right of it in the parent. */
    method SplitChild(dbi: Dbi, pgs: seq<nat>, ki: seq<nat>, np: nat, left: seq<Entry>, right: seq<Entry>, m: nat)
      returns (ghost tr: seq<State>)
      requires Valid() && env.st.writer.Some? && |pgs| == |ki| > 1 && OnStack(Trees(dbi), pgs, ki) && np in Hand()
      requires Dirty(pgs[|pgs| - 1]) && Dirty(pgs[|pgs| - 2]) && OnForest(Trees(dbi), PathTo(ki, |ki| - 2))
      requires var b, i := At(Trees(dbi), PathTo(ki, |ki| - 2)), ki[|ki| - 2];
               i < |b.kids| && b.kids[i].span == 1 && m <= |b.kids[i].kids|
      modifies this`mem, this`freePgs, this`freeRoot, this`mainRoot, env`st, env`loose
      ensures Valid() && IsTrace(tr, old(env.st), env.st) && env.st.writer.Some? && Hand() == old(Hand()) - {np}
      ensures Trees(dbi) == Put(old(Trees(dbi)), PathTo(ki, |ki| - 2),
                                SplitAt(old(At(Trees(dbi), PathTo(ki, |ki| - 2))), ki[|ki| - 2], left, right, m, np))
      ensures Others(dbi) == old(Others(dbi)) && freePgs == old(freePgs) && env.loose == old(env.loose)
      ensures mem.Keys == old(mem.Keys) + {np}
    {
      hide Inv, IsTrace, OnStack, Stored, Distinct, Reach, Env.Environment.Tied, Step, Put, Linked, TreePages, PageOf,
           Exchanged,
           SpansOwned, SplitMem, SplitAt, SplitKids, Roots;
      WriterHere();
      var up, i, pg := pgs[|pgs| - 2], ki[|ki| - 2], pgs[|pgs| - 1];
      ghost var s, ts, p := env.st, Trees(dbi), PathTo(ki, |ki| - 2);
      ghost var b := At(ts, p);
      WriterTrees(s, dbi);
      TopTwo(View(disk, mem), ts, pgs, ki);
      SplitPages(b, i, left, right, m, np);
      var parent, page := mem[up], mem[pg];
      var mem' := mem[up := parent.(kids := parent.kids[..i + 1] + [np] + parent.kids[i + 1..])];
      mem' := mem'[pg := page.(entries := left, kids := page.kids[..m])];
      mem' := mem'[np := Page.Page(page.leaf, right, page.kids[m..], 1)];
      SplitIs(mem, b, i, left, right, m, np);
      assert mem' == SplitMem(mem, b, i, left, right, m, np);
      SplitExchanges(s, dbi, p, i, left, right, m, np);
      OnePage(np);
      SplitSpans(mem, mem', s.writer.value.owned, up, pg, np);
      NoElems();
      if |p| == 1 { SameRoot(ts, p, b.pgno); }
      tr := Exchange(dbi, p, SplitAt(b, i, left, right, m, np), mem', Hand() - {np}, [], [], Root(dbi));
    }

    /** The first page of an empty database. */
    method FirstLeaf(dbi: Dbi, np: nat, es: seq<Entry>) returns (ghost tr: seq<State>)
      requires Valid() && env.st.writer.Some? && Trees(dbi) == [] && np in Hand()
      modifies this`mem, this`freePgs, this`freeRoot, this`mainRoot, env`st, env`loose
      ensures Valid() && IsTrace(tr, old(env.st), env.st) && env.st.writer.Some? && Hand() == old(Hand()) - {np}
      ensures Trees(dbi) == [Node(np, true, es, [], 1)] && Content(Trees(dbi)) == es && Root(dbi) == [np]
      ensures Others(dbi) == old(Others(dbi)) && freePgs == old(freePgs) && env.loose == old(env.loose)
      ensures mem == old(mem)[np := Page.Page(true, es, [], 1)]
      ensures CommitsKept(old(env.st), env.st) && env.st.disk == old(env.st.disk)
    {
      hide Inv, IsTrace, Stored, Distinct, Reach, Env.Environment.Tied, Step, Linked, TreePages, SpansOwned, EditOk,
           EditOf,
           IdSet, Elems, TreesOf, OthersOf, View;
      WriterHere();
      ghost var s, w := env.st, env.st.writer.value;
      WriterTrees(s, dbi);
      ghost var t := Node(np, true, es, [], 1);
      var mem' := mem[np := Page.Page(true, es, [], 1)];
      LeafAlone(disk, mem, np, es, w.owned);
      OthersAgree(disk, mem, mem', np, Reach(OthersOf(w, dbi)));
      NoElems();
      FirstSets(w.hand, np);
      ForestEdit(s, dbi, [t], mem', w.hand - {np}, {}, {}, {});
      tr := Change(dbi, [t], mem', w.hand - {np}, [], [], [np]);
    }

    /** A value that does not fit the leaf: the run at np, taken from the hand, becomes child k of the leaf on top of
        the stack, whose nodes then are es. */
    method AddOverflow(dbi: Dbi, pgs: seq<nat>, ki: seq<nat>, k: nat, es: seq<Entry>, np: nat, n: nat)
      returns (ghost tr: seq<State>)
      requires Valid() && env.st.writer.Some? && |pgs| == |ki| > 0 && OnStack(Trees(dbi), pgs, ki)
      requires Dirty(pgs[|pgs| - 1]) && n >= 1 && Span(np, n) <= Hand()
      requires k <= |At(Trees(dbi), PathTo(ki, |pgs| - 1)).kids|
      modifies this`mem, this`freePgs, this`freeRoot, this`mainRoot, env`st, env`loose
      ensures Valid() && IsTrace(tr, old(env.st), env.st) && env.st.writer.Some? && Hand() == old(Hand()) - Span(np, n)
      ensures Trees(dbi) == Put(old(Trees(dbi)), PathTo(ki, |pgs| - 1),
                                Extended(old(At(Trees(dbi), PathTo(ki, |pgs| - 1))), k, es, np, n))
      ensures Others(dbi) == old(Others(dbi)) && freePgs == old(freePgs) && env.loose == old(env.loose)
      ensures mem.Keys == old(mem.Keys) + {np}
    {
      hide Inv, IsTrace, OnStack, Stored, Distinct, Reach, Env.Environment.Tied, Step, Put, Linked, TreePages, PageOf,
           Exchanged,
           SpansOwned, Extended, ExtendedMem, Roots, Span;
      WriterHere();
      var pg := pgs[|pgs| - 1];
      ghost var s, ts, p := env.st, Trees(dbi), PathTo(ki, |pgs| - 1);
      WriterTrees(s, dbi);
      StackPages(View(disk, mem), ts, pgs, ki);
      ghost var x := At(ts, p);
      ExtendedPage(x, k, es, np, n);
      var leaf := mem[pg];
      var mem' := mem[pg := leaf.(entries := es, kids := leaf.kids[..k] + [np] + leaf.kids[k..])];
      mem' := mem'[np := Page.Page(false, [], [], n)];
      ExtendedIs(mem, x, k, es, np, n);
      assert mem' == ExtendedMem(mem, x, k, es, np, n);
      ExtendExchanges(s, dbi, p, k, es, np, n);
      ExtendSpans(mem, mem', s.writer.value.owned, pg, np, n);
      NoElems();
      if |p| == 1 { SameRoot(ts, p, pg); }
      tr := Exchange(dbi, p, Extended(x, k, es, np, n), mem', Hand() - Span(np, n), [], [], Root(dbi));
    }

    /** A new root above the old one, before the old one is split. */
    method NewRoot(dbi: Dbi, np: nat) returns (ghost tr: seq<State>)
      requires Valid() && env.st.writer.Some? && |Trees(dbi)| == 1 && np in Hand()
      modifies this`mem, this`freePgs, this`freeRoot, this`mainRoot, env`st, env`loose
      ensures Valid() && IsTrace(tr, old(env.st), env.st) && env.st.writer.Some? && Hand() == old(Hand()) - {np}
      ensures Trees(dbi) == [Above(old(Trees(dbi))[0], np)] && Content(Trees(dbi)) == old(Content(Trees(dbi)))
      ensures Others(dbi) == old(Others(dbi)) && freePgs == old(freePgs) && env.loose == old(env.loose)
      ensures mem.Keys == old(mem.Keys) + {np}
    {
      hide Inv, IsTrace, Stored, Distinct, Reach, Env.Environment.Tied, Step, Linked, TreePages, PageOf, Exchanged,
           SpansOwned, Content;
      WriterHere();
      ghost var s, ts := env.st, Trees(dbi);
      var root := Root(dbi)[0];
      var mem' := mem[np := Page.Page(false, [], [root], 1)];
      WriterTrees(s, dbi);
      RootExchanges(s, dbi, np);
      OnePage(np);
      OneMoreSpan(mem, np, mem'[np], s.writer.value.owned);
      NoElems();
      PutContent(ts, [0], Above(ts[0], np)) by { OneContent(Above(ts[0], np)); }
      tr := Exchange(dbi, [0], Above(ts[0], np), mem', Hand() - {np}, [], [], [np]);
    }

    /** The root of a database whose root branch has one child left. */
    method CollapseRoot(dbi: Dbi) returns (ghost tr: seq<State>)
      requires Valid() && env.st.writer.Some? && |Trees(dbi)| == 1
      requires var x := Trees(dbi)[0]; x.span == 1 && |x.kids| == 1 && !x.leaf
      modifies this`mem, this`freePgs, this`freeRoot, this`mainRoot, env`st, env`loose
      ensures Valid() && IsTrace(tr, old(env.st), env.st) && env.st.writer.Some? && Hand() == old(Hand())
      ensures Trees(dbi) == [old(Trees(dbi))[0].kids[0]] && Content(Trees(dbi)) == old(Content(Trees(dbi)))
      ensures Others(dbi) == old(Others(dbi)) && mem == old(mem) && env.loose == old(env.loose)
      ensures old(Root(dbi))[0] <= MAX_ID && freePgs == old(freePgs) + [old(Root(dbi))[0]]
    {
      hide Inv, IsTrace, Stored, Distinct, Reach, Env.Environment.Tied, Step, Linked, TreePages, PageOf, Exchanged,
           SpansOwned, Content;
      WriterHere();
      env.TreesBelow();
      ghost var s, ts := env.st, Trees(dbi);
      WriterTrees(s, dbi);
      KidKept(View(disk, mem), ts, 0);
      var root := Root(dbi)[0];
      var page := PageAt(root);
      PageKids(ts[0]);
      CollapseExchanges(s, dbi);
      SetOfOne(root);
      Here(View(disk, mem), ts, 0);
      assert [ts[0]] == ts;
      OnlyKid(View(disk, mem), ts[0]);
      tr := Exchange(dbi, [0], ts[0].kids[0], mem, Hand(), [root], [], page.kids);
    }

    /** A run of pages leaves the trees: to me_pghead or to mt_free_pgs. */
    method ReleaseRun(dbi: Dbi, ghost p: seq<nat>, ghost t: Tree, mem': File, pg: nat, n: nat, back: bool,
                      root: seq<nat>)
      returns (ghost tr: seq<State>)
      requires Valid() && env.st.writer.Some? && n > 0 && pg + n <= MAX_ID
      requires SpansOwned(mem', env.st.writer.value.owned)
      requires Exchanged(env.st, dbi, p, t, mem', Hand(), if back then {}
        else Span(pg, n), {}, if back then Span(pg, n) else {})
      requires root == if |p| == 1 then Root(dbi)[p[0] := t.pgno] else Root(dbi)
      modifies this`mem, this`freePgs, this`freeRoot, this`mainRoot, env`st, env`loose, env.head, env.head.ids
      ensures Valid() && IsTrace(tr, old(env.st), env.st) && env.st.writer.Some?
      ensures Trees(dbi) == Put(old(Trees(dbi)), p, t) && Others(dbi) == old(Others(dbi)) && Hand() == old(Hand())
      ensures mem == mem' && env.loose == old(env.loose)
      ensures if back then env.head.View() == InsertedRun(old(env.head.View()), pg, n) && freePgs == old(freePgs)
              else freePgs == old(freePgs) + Run(pg, n) && env.head.View() == old(env.head.View())
    {
      hide Inv, IsTrace, Exchanged, Put, Env.Environment.Tied, Step, Linked, SpansOwned, Roots, InsertedRun, Run, Span,
           TreesOf, OthersOf;
      NoElems();
      RunSet(pg, n);
      if back {
        tr := ExchangeBack(dbi, p, t, mem', pg, n, root);
      } else {
        tr := Exchange(dbi, p, t, mem', Hand(), Run(pg, n), [], root);
      }
    }

    /** mdb_ovpage_free for overflow page k of the leaf on top of the stack, whose nodes then are es. A page of this
        transaction goes back to me_pghead if there is one (me_pglast is set with it), else the run goes on
        mt_free_pgs. */
    method FreeOverflow(dbi: Dbi, pgs: seq<nat>, ki: seq<nat>, k: nat, es: seq<Entry>) returns (ghost tr: seq<State>)
      requires Valid() && env.st.writer.Some? && |pgs| == |ki| > 0 && OnStack(Trees(dbi), pgs, ki)
      requires Dirty(pgs[|pgs| - 1])
      requires var x := At(Trees(dbi), PathTo(ki, |pgs| - 1)); k < |x.kids| && x.kids[k].kids == []
      modifies this`mem, this`freePgs, this`freeRoot, this`mainRoot, env`st, env`loose, env.head, env.head.ids
      ensures Valid() && IsTrace(tr, old(env.st), env.st) && env.st.writer.Some? && Hand() == old(Hand())
      ensures Trees(dbi) == Put(old(Trees(dbi)), PathTo(ki, |pgs| - 1),
        Dropped(old(At(Trees(dbi), PathTo(ki, |pgs| - 1))), k, es))
      ensures Others(dbi) == old(Others(dbi)) && env.loose == old(env.loose)
      ensures var y := old(At(Trees(dbi), PathTo(ki, |pgs| - 1))).kids[k];
              && y.span >= 1 && y.pgno + y.span <= MAX_ID
              && if env.pglast != 0 && old(Dirty(y.pgno))
                 then env.head.View() == InsertedRun(old(env.head.View()), y.pgno, y.span) && freePgs == old(freePgs) &&
                   !Dirty(y.pgno)
                 else freePgs == old(freePgs) + Run(y.pgno, y.span) && env.head.View() == old(env.head.View())
    {
      hide Inv, IsTrace, OnStack, Stored, Distinct, Reach, Env.Environment.Tied, Step, Put, Linked, TreePages, PageOf,
           Exchanged,
           SpansOwned, Dropped, DroppedMem, Roots, InsertedRun, Run, Span;
      WriterHere();
      var pg := pgs[|pgs| - 1];
      ghost var s, ts, p := env.st, Trees(dbi), PathTo(ki, |pgs| - 1);
      OverflowRead(dbi, pgs, ki, k);
      ghost var x := At(ts, p);
      var leaf := mem[pg];
      var op := leaf.kids[k];
      var n := PageAt(op).span;
      var back := env.pglast != 0 && Dirty(op);
      var mem' := mem[pg := leaf.(entries := es, kids := leaf.kids[..k] + leaf.kids[k + 1..])];
      if back { mem' := mem' - {op}; }
      assert mem' == DroppedMem(mem, x, k, es, back) by {
        DroppedPage(x, k, es);
        DroppedIs(mem, x, k, es, back);
      }
      DropSpans(mem, mem', s.writer.value.owned, pg, op, n);
      DropExchanges(s, dbi, p, k, es, back, if back then {} else Span(op, n), if back then Span(op, n) else {});
      DroppedIs(mem, x, k, es, back);
      if |p| == 1 { SameRoot(ts, p, pg); }
      tr := ReleaseRun(dbi, p, Dropped(x, k, es), mem', op, n, back, Root(dbi));
    }

    /** The leaf on top of the stack and its overflow page k as they are read. */
    lemma OverflowRead(dbi: Dbi, pgs: seq<nat>, ki: seq<nat>, k: nat)
      requires Valid() && env.st.writer.Some? && |pgs| == |ki| > 0 && OnStack(Trees(dbi), pgs, ki)
      requires Dirty(pgs[|pgs| - 1]) && k < |At(Trees(dbi), PathTo(ki, |pgs| - 1)).kids|
      ensures OnForest(Trees(dbi), PathTo(ki, |pgs| - 1))
      ensures var x, leaf := At(Trees(dbi), PathTo(ki, |pgs| - 1)), mem[pgs[|pgs| - 1]];
              var y := x.kids[k];
              && leaf == PageOf(x) && x.pgno == pgs[|pgs| - 1] && k < |leaf.kids| && leaf.kids[k] == y.pgno
              && (y.pgno in mem || y.pgno in disk) && PageAt(y.pgno).span == y.span >= 1
              && y.pgno + y.span <= MAX_ID && y.pgno != x.pgno
    {
      hide Inv, OnStack, Stored, Distinct, Reach, Env.Environment.Tied, Step, Linked, TreePages, SpansOwned, Roots,
           Span,
           Linked, PageOf;
      WriterHere();
      env.TreesBelow();
      WriterTrees(env.st, dbi);
      StackPages(View(disk, mem), Trees(dbi), pgs, ki);
      var x := At(Trees(dbi), PathTo(ki, |pgs| - 1));
      PageKids(x.kids[k]);
      DroppedPage(x, k, []);
      OverflowFacts(View(disk, mem), x, k, TreePages(env.st.writer.value), env.nextPgno);
    }

    /** The children that a level's pages name. */
    method NextLevel(pages: seq<nat>, ghost ts: seq<Tree>) returns (next: seq<nat>)
      requires Stored(View(disk, mem), ts) && Roots(ts) == pages
      ensures next == Roots(Below(ts))
    {
      hide Stored, Roots, Below, Reach, View, PageOf;
      next := [];
      NoLevel();
      for i := 0 to |pages|
        invariant next == Roots(Below(ts[..i]))
      {
        LevelPage(View(disk, mem), ts, i);
        ReadIs(disk, mem, pages[i]);
        BelowSnoc(ts[..i], ts[i]);
        RootsConcat(Below(ts[..i]), ts[i].kids);
        next := next + PageAt(pages[i]).kids;
      }
      assert ts[..|pages|] == ts;
    }

    /** The page numbers of a level, overflow pages as whole runs. */
    method LevelRuns(pages: seq<nat>, ghost ts: seq<Tree>) returns (freed: seq<Id>)
      requires Stored(View(disk, mem), ts) && Roots(ts) == pages && Distinct(ts)
      requires forall q :: q in Reach(ts) ==> q < MAX_PAGES
      ensures IdSet(freed) == Spans(ts) && NoRepeats(freed)
    {
      hide Stored, Distinct, Roots, Below, Reach, View, PageOf, Spans, IdSet, Run, Span, NoRepeats;
      freed := [];
      NoLevel();
      for i := 0 to |pages|
        invariant IdSet(freed) == Spans(ts[..i]) && NoRepeats(freed)
      {
        LevelPage(View(disk, mem), ts, i);
        ReadIs(disk, mem, pages[i]);
        BelowSnoc(ts[..i], ts[i]);
        var n := PageAt(pages[i]).span;
        RunSet(pages[i], n);
        IdSetConcat(freed, Run(pages[i], n));
        LevelApart(ts, i);
        TwoLists(freed, Run(pages[i], n));
        freed := freed + Run(pages[i], n);
      }
      assert ts[..|pages|] == ts;
    }

    /** The walk of mdb_drop0, level by level from the bottom: at each level the pages it names are freed. */
    method FreeBelow(pages: seq<nat>, ghost ts: seq<Tree>) returns (freed: seq<Id>)
      requires Stored(View(disk, mem), ts) && Roots(ts) == pages && Distinct(ts)
      requires forall q :: q in Reach(ts) ==> q < MAX_PAGES
      ensures IdSet(freed) == Reach(Below(ts)) && NoRepeats(freed)
      decreases Size(ts)
    {
      hide Stored, Distinct, Roots, Below, Reach, View, PageOf, Spans, IdSet, Size, NoRepeats;
      LevelSplit(View(disk, mem), ts);
      LevelSplit(View(disk, mem), Below(ts));
      LevelDistinct(ts);
      LevelDistinct(Below(ts));
      NoLevel();
      if pages == [] {
        assert ts == [];
        return [];
      }
      var next := NextLevel(pages, ts);
      var deeper := FreeBelow(next, Below(ts));
      var level := LevelRuns(next, Below(ts));
      IdSetConcat(deeper, level);
      TwoLists(deeper, level);
      freed := deeper + level;
    }

    /** mdb_drop0: every page of the database goes to mt_free_pgs. The root of a tree whose last node was deleted goes
        the same way. */
    method DropTree(dbi: Dbi) returns (ghost tr: seq<State>)
      requires Valid() && env.st.writer.Some? && |Trees(dbi)| == 1 && Trees(dbi)[0].span == 1
      modifies this`mem, this`freePgs, this`freeRoot, this`mainRoot, env`st, env`loose
      ensures Valid() && IsTrace(tr, old(env.st), env.st) && env.st.writer.Some?
      ensures Trees(dbi) == [] && Root(dbi) == [] && Others(dbi) == old(Others(dbi)) && Hand() == old(Hand())
      ensures mem == old(mem) && env.loose == old(env.loose) && |freePgs| > |old(freePgs)|
      ensures freePgs[..|old(freePgs)|] == old(freePgs)
      ensures IdSet(freePgs) == old(IdSet(freePgs) + Reach(Trees(dbi)))
    {
      hide Inv, IsTrace, Env.Environment.Tied, Step, Linked, SpansOwned, IdSet, Elems, Stored, Distinct, Reach, View,
           Below, Spans, TreePages;
      WriterHere();
      env.TreesBelow();
      ghost var ts := Trees(dbi);
      WriterTrees(env.st, dbi);
      var root := Root(dbi)[0];
      LevelSplit(View(disk, mem), ts);
      OneLevel(ts[0]);
      LevelDistinct(ts);
      OnePage(root);
      assert ts == [ts[0]];
      var freed := FreeBelow(Root(dbi), ts);
      SetOfOne(root);
      IdSetConcat(freed, [root]);
      TwoLists(freed, [root]);
      IdSetConcat(freePgs, freed + [root]);
      tr := Clear(dbi, freed + [root]);
    }

    /** The loose pages are freed: before the freelist is saved, when there is no me_pghead to return them to. */
    method FreeLoose() returns (ghost tr: seq<State>)
      requires Valid()
      modifies this`freePgs, env`loose, env`st
      ensures Valid() && IsTrace(tr, old(env.st), env.st) && env.st.writer.Some? && old(env.st.writer).Some?
      ensures env.loose == [] && freePgs == old(freePgs) + old(env.loose) && Hand() == old(Hand())
      ensures forall dbi :: Trees(dbi) == old(Trees(dbi))
    {
      hide Inv, IsTrace, Env.Environment.Tied, Step, Linked, SpansOwned;
      env.TiedFacts();
      env.LooseFits();
      ghost var s := env.st;
      assert forall i :: 0 <= i < |env.loose| ==> env.loose[i] in env.loose;
      var loose: seq<Id> := env.loose;
      TiedLoose();
      tr := env.LooseToFree();
      LinkedFreed(s, env.st, disk, mem, freePgs, loose, freeRoot, mainRoot);
      freePgs := freePgs + loose;
    }

    lemma TiedLoose()
      requires Valid()
      ensures NoRepeats(env.loose)
    {
      hide Inv, Linked, Holds, RecsMatch, LatestRecords;
    }

    /** When mdb_freelist_save is through, its records agree with the lists: the next step, writing the transaction
        out, is allowed. */
    lemma ReadyToSave(m: map<nat, seq<nat>>)
      requires Valid() && env.st.writer.Some? && env.st.latest in env.st.snaps && Hand() == {} && env.loose == []
      requires FreeRecords(Trees(FreeDb)) == m
      requires FreelistRun.Recorded(m, LatestRecords(env.st), env.latest + 1, env.pglast, env.head.View(), freePgs)
      ensures SaveDone(env.st, env.st.writer.value) && Enabled(env.st, Write(Save))
    {
      hide Inv, RecsMatch, LatestRecords, FreeRecords, FreelistRun.Recorded, SpansOwned, SaveDone, Enabled;
      HoldsLoose(env.st, env.head.View(), env.pglast, env.loose, env.nextPgno);
      HeadDistinct(env.head.View());
      FreeDistinct(env.st, disk, mem, freePgs, freeRoot, mainRoot);
      NoElems();
      FreelistRun.SavedIsDone(env.st, m, env.head.View(), freePgs);
    }
  }

  lemma SetOfOne(x: Id)
    ensures IdSet([x]) == {x as nat} && Elems([]) == {} && NoRepeats([x])
  {
  }

  lemma PageKids(t: Tree)
    ensures PageOf(t).kids == Roots(t.kids) && PageOf(t).span == t.span
  {
  }

  lemma TouchIs(mem: File, ts: seq<Tree>, p: seq<nat>, np: nat)
    requires OnForest(ts, p) && (|p| > 1 ==> p[|p| - 1] < |ParentOf(ts, p).kids|)
    ensures Touched(mem, ts, p, np) ==
            (if |p| > 1 then mem[ParentOf(ts, p).pgno := PageOf(ParentPut(ts, p, At(ts, p).(pgno := np)))]
              else mem)[np := PageOf(At(ts, p))]
  {
  }

  lemma TouchSpans(mem: File, ts: seq<Tree>, p: seq<nat>, np: nat, owned: set<nat>)
    requires OnForest(ts, p) && SpansOwned(mem, owned) && np in owned && At(ts, p).span == 1
    requires |p| > 1 ==> p[|p| - 1] < |ParentOf(ts, p).kids|
    requires |p| > 1 ==> ParentOf(ts, p).pgno in mem && mem[ParentOf(ts, p).pgno].span == ParentOf(ts, p).span
    ensures SpansOwned(Touched(mem, ts, p, np), owned)
  {
    OnePage(np);
  }

  lemma StackOnForest(ts: seq<Tree>, pgs: seq<nat>, ki: seq<nat>)
    requires OnStack(ts, pgs, ki)
    ensures |pgs| == |ki| > 0 && OnForest(ts, PathTo(ki, |pgs| - 1))
    ensures At(ts, PathTo(ki, |pgs| - 1)).pgno == pgs[|pgs| - 1]
    ensures pgs[|pgs| - 1 := pgs[|pgs| - 1]] == pgs
  {
  }

  lemma HandOutsideAll(s: State, pages: set<nat>)
    requires Inv(s) && s.writer.Some? && pages <= s.writer.value.hand
    ensures pages !! TreePages(s.writer.value)
  {
    hide Inv, Reach;
    WriterTrees(s, FreeDb);
  }

  lemma SameTreePages(s: State, r: State)
    requires SameBase(s, r)
    ensures TreePages(r.writer.value) == TreePages(s.writer.value)
  {
  }

  lemma ElemsOfOne(x: nat)
    ensures Elems([x]) == {x} && IdSet([]) == {} && Elems([]) == {} && NoRepeats([])
  {
  }

  lemma MergedIs(mem: File, b: Tree, i: nat)
    requires i + 1 < |b.kids|
    ensures MergedMem(mem, b, i) ==
      mem[b.pgno := PageOf(Merged(b, i))][b.kids[i].pgno := PageOf(Joined(b.kids[i], b.kids[i + 1]))]
  {
  }

  lemma MergeSpans(mem: File, mem': File, owned: set<nat>, a: nat, b: nat)
    requires SpansOwned(mem, owned) && a in mem && b in mem && mem'.Keys == mem.Keys && mem'[a].span == mem[a].span
    requires mem'[b].span == mem[b].span
    requires forall q :: q in mem && q != a && q != b ==> mem'[q] == mem[q]
    ensures SpansOwned(mem', owned)
  {
  }

  lemma SameRoot(ts: seq<Tree>, p: seq<nat>, pg: nat)
    requires OnForest(ts, p) && At(ts, p).pgno == pg && |p| == 1
    ensures Roots(ts)[p[0] := pg] == Roots(ts)
  {
    hide Roots;
    RootsUpdate(ts, p[0], ts[p[0]]);
  }

  lemma DestinationFacts(ts: seq<Tree>, pgs: seq<nat>, ki: seq<nat>)
    requires |pgs| == |ki| > 1 && OnStack(ts, pgs, ki) && OnForest(ts, PathTo(ki, |ki| - 2))
    requires ki[|ki| - 2] + 1 < |At(ts, PathTo(ki, |ki| - 2)).kids|
    ensures var p, q, i := PathTo(ki, |pgs| - 1), PathTo(ki, |ki| - 2), ki[|ki| - 2];
            && OnForest(ts, p) && p[..|p| - 1] == q && p[|p| - 1] == i && ParentOf(ts, p) == At(ts, q)
            && At(ts, p) == At(ts, q).kids[i]
  {
    hide OnStack;
    StackTop(ts, pgs, ki);
    var p, q := PathTo(ki, |ki| - 1), PathTo(ki, |ki| - 2);
    assert p[..|p| - 1] == q;
    ParentIsPrefix(ts, p);
    ParentFacts(map[], ts, p);
  }

  /** What a merge reads: the parent, the destination and its right neighbour. */
  lemma MergeReads(d: File, ts: seq<Tree>, pgs: seq<nat>, ki: seq<nat>)
    requires Stored(d, ts) && Distinct(ts) && |pgs| == |ki| > 1 && OnStack(ts, pgs, ki)
    requires OnForest(ts, PathTo(ki, |ki| - 2))
    requires ki[|ki| - 2] + 1 < |At(ts, PathTo(ki, |ki| - 2)).kids|
    ensures var b, i := At(ts, PathTo(ki, |ki| - 2)), ki[|ki| - 2];
            && b.pgno == pgs[|pgs| - 2] && b.kids[i].pgno == pgs[|pgs| - 1] && Kept(d, b) && Kept(d, b.kids[i])
            && Kept(d, b.kids[i + 1])
            && b.kids[i + 1].pgno in Reach(ts)
  {
    hide Stored, Distinct, Reach, PageOf, OnStack;
    StackTop(ts, pgs, ki);
    var p, q := PathTo(ki, |ki| - 1), PathTo(ki, |ki| - 2);
    var b, i := At(ts, q), ki[|ki| - 2];
    ParentIsPrefix(ts, p);
    assert p[..|p| - 1] == q;
    ParentFacts(d, ts, p);
    SubtreeFacts(d, ts, q);
    Single(d, b);
    KidKept(d, b.kids, i);
    KidKept(d, b.kids, i + 1);
  }

  /** The file holds this page. */
  ghost predicate Kept(d: File, t: Tree) {
    t.pgno in d && d[t.pgno] == PageOf(t)
  }

  lemma KidKept(d: File, ts: seq<Tree>, i: nat)
    requires Stored(d, ts) && i < |ts|
    ensures Kept(d, ts[i]) && ts[i].pgno in Reach(ts)
  {
    hide Stored, Distinct, Reach, PageOf;
    Here(d, ts, i);
    Single(d, ts[i]);
    assert ts[i].pgno in Span(ts[i].pgno, ts[i].span);
  }

  lemma NoElems()
    ensures Elems([]) == {} && IdSet([]) == {} && NoRepeats([])
  {
  }

  lemma NoIds(s: seq<Id>)
    ensures s + [] == s && IdSet([]) == {} && NoRepeats([])
  {
  }

  lemma NoTrees(d: File)
    ensures Stored(d, []) && Distinct([]) && Reach([]) == {} && Roots([]) == []
  {
  }

  lemma TopTwo(d: File, ts: seq<Tree>, pgs: seq<nat>, ki: seq<nat>)
    requires Stored(d, ts) && Distinct(ts) && |pgs| == |ki| > 1 && OnStack(ts, pgs, ki)
    requires OnForest(ts, PathTo(ki, |ki| - 2))
    ensures ki[|ki| - 2] < |At(ts, PathTo(ki, |ki| - 2)).kids|
    ensures var b, i := At(ts, PathTo(ki, |ki| - 2)), ki[|ki| - 2];
            b.pgno == pgs[|pgs| - 2] && b.kids[i].pgno == pgs[|pgs| - 1] && Kept(d, b) && Kept(d, b.kids[i])
  {
    hide Stored, Distinct, Reach, PageOf, OnStack;
    StackTop(ts, pgs, ki);
    var p, q := PathTo(ki, |ki| - 1), PathTo(ki, |ki| - 2);
    ParentIsPrefix(ts, p);
    assert p[..|p| - 1] == q;
    ParentFacts(d, ts, p);
    SubtreeFacts(d, ts, q);
    Single(d, At(ts, q));
    KidKept(d, At(ts, q).kids, ki[|ki| - 2]);
  }

  lemma SplitIs(mem: File, b: Tree, i: nat, left: seq<Entry>, right: seq<Entry>, m: nat, np: nat)
    requires i < |b.kids| && m <= |b.kids[i].kids|
    ensures var k := SplitKids(b.kids[i], left, right, m, np);
            && k[0].pgno == b.kids[i].pgno
            && SplitMem(mem, b, i, left, right, m, np) ==
               mem[b.pgno := PageOf(SplitAt(b, i, left, right, m, np))][k[0].pgno := PageOf(k[0])][np := PageOf(k[1])]
    ensures SplitAt(b, i, left, right, m, np).pgno == b.pgno
  {
  }

  lemma SplitSpans(mem: File, mem': File, owned: set<nat>, a: nat, b: nat, np: nat)
    requires SpansOwned(mem, owned) && a in mem && b in mem && Span(np, 1) <= owned
    requires mem'.Keys == mem.Keys + {np} && mem'[np].span == 1 && (a != np ==> mem'[a].span == mem[a].span)
    requires (b != np ==> mem'[b].span == mem[b].span)
    requires forall q :: q in mem && q != a && q != b && q != np ==> mem'[q] == mem[q]
    ensures SpansOwned(mem', owned)
  {
  }

  lemma OneMoreSpan(mem: File, np: nat, page: Page, owned: set<nat>)
    requires SpansOwned(mem, owned) && Span(np, page.span) <= owned
    ensures SpansOwned(mem[np := page], owned)
  {
  }

  lemma DroppedIs(mem: File, x: Tree, k: nat, es: seq<Entry>, back: bool)
    requires k < |x.kids|
    ensures DroppedMem(mem, x, k, es, back) ==
            if back then mem[x.pgno := PageOf(Dropped(x, k, es))] - {x.kids[k].pgno}
              else mem[x.pgno := PageOf(Dropped(x, k, es))]
    ensures Dropped(x, k, es).pgno == x.pgno
  {
  }

  lemma DropSpans(mem: File, mem': File, owned: set<nat>, pg: nat, op: nat, n: nat)
    requires SpansOwned(mem, owned) && pg in mem && mem'.Keys <= mem.Keys
    requires (pg in mem' ==> mem'[pg].span == mem[pg].span)
    requires (forall q :: q in mem' && q != pg ==> mem'[q] == mem[q]) && (op in mem ==> mem[op].span == n)
    ensures SpansOwned(mem', owned) && (op in mem ==> Span(op, n) <= owned)
  {
  }

  /** The overflow page as it is read, and where its run ends. */
  lemma OverflowFacts(d: File, x: Tree, k: nat, pages: set<nat>, next: nat)
    requires k < |x.kids| && Stored(d, [x]) && Distinct([x]) && Reach([x]) <= pages
    requires forall q :: q in pages ==> q < next
    ensures var y := x.kids[k]; Kept(d, y) && y.span >= 1 && y.pgno + y.span <= next && y.pgno != x.pgno
  {
    hide Stored, Distinct, Reach, PageOf;
    var y := x.kids[k];
    OneKid(d, x, k);
    Single(d, y);
    assert y.pgno + y.span - 1 in Span(y.pgno, y.span);
  }

  lemma NoLevel()
    ensures Below([]) == [] && Spans([]) == {} && Roots([]) == [] && IdSet([]) == {} && Reach([]) == {} && NoRepeats([])
  {
  }

  lemma OneLevel(t: Tree)
    ensures Spans([t]) == Span(t.pgno, t.span)
  {
  }

  lemma ReadIs(disk: File, mem: File, pg: nat)
    requires pg in View(disk, mem)
    ensures (pg in mem || pg in disk) && View(disk, mem)[pg] == if pg in mem then mem[pg] else disk[pg]
  {
  }

  /** Page i of a level. */
  lemma LevelPage(d: File, ts: seq<Tree>, i: nat)
    requires Stored(d, ts) && i < |ts|
    ensures Roots(ts)[i] == ts[i].pgno && ts[i].pgno in d && d[ts[i].pgno].kids == Roots(ts[i].kids)
    ensures d[ts[i].pgno].span == ts[i].span >= 1
    ensures ts[..i + 1] == ts[..i] + [ts[i]]
    ensures ts[i].pgno + ts[i].span - 1 in Reach(ts)
  {
    hide Stored, Distinct, Reach;
    Here(d, ts, i);
    Single(d, ts[i]);
    RootsUpdate(ts, i, ts[i]);
    assert ts[i].pgno + ts[i].span - 1 in Span(ts[i].pgno, ts[i].span);
  }

  lemma LinkedFreed(s: State, r: State, disk: File, mem: File, freePgs: seq<Id>, loose: seq<Id>, freeRoot: seq<nat>,
                    mainRoot: seq<nat>)
    requires Linked(s, disk, mem, freePgs, freeRoot, mainRoot) && NoRepeats(loose)
    requires r.disk == s.disk && r.writer.Some? && s.writer.value.freePgs !! Elems(loose)
    requires r.writer.value == s.writer.value.(loose := {}, freePgs := s.writer.value.freePgs + Elems(loose))
    ensures Linked(r, disk, mem, freePgs + loose, freeRoot, mainRoot)
    ensures forall dbi :: TreesOf(r.writer.value, dbi) == TreesOf(s.writer.value, dbi)
  {
    assert Elems(loose) == IdSet(loose);
    IdSetConcat(freePgs, loose);
    TwoLists(freePgs, loose);
  }

  lemma HeadDistinct(head: seq<Id>)
    requires StrictlyDescending(head)
    ensures NoRepeats(head) && Elems(head) == IdSet(head)
  {
  }

  lemma FreeDistinct(s: State, disk: File, mem: File, freePgs: seq<Id>, freeRoot: seq<nat>, mainRoot: seq<nat>)
    requires Linked(s, disk, mem, freePgs, freeRoot, mainRoot)
    ensures NoRepeats(freePgs) && s.writer.Some? && Elems(freePgs) == s.writer.value.freePgs
  {
  }

  lemma LeafAlone(disk: File, mem: File, np: nat, es: seq<Entry>, owned: set<nat>)
    requires SpansOwned(mem, owned) && np in owned
    ensures var t, mem' := Node(np, true, es, [], 1), mem[np := Page.Page(true, es, [], 1)];
            && Distinct([t]) && Stored(View(disk, mem'), [t]) && Reach([t]) == {np} && Roots([t]) == [np]
            && Content([t]) == es
            && SpansOwned(mem', owned)
  {
    OnePage(np);
    Single(View(disk, mem[np := Page.Page(true, es, [], 1)]), Node(np, true, es, [], 1));
  }

  lemma OthersAgree(disk: File, mem: File, mem': File, np: nat, pages: set<nat>)
    requires np !in pages && forall q :: q != np ==> (q in mem' <==> q in mem) && (q in mem ==> mem'[q] == mem[q])
    ensures Agree(View(disk, mem), View(disk, mem'), pages)
  {
  }

  lemma FirstSets(hand: set<nat>, np: nat)
    requires np in hand
    ensures {np} !! (hand - {np}) && {np} + (hand - {np}) == hand && Reach([]) == {}
  {
  }

  lemma ExtendedIs(mem: File, x: Tree, k: nat, es: seq<Entry>, np: nat, n: nat)
    requires k <= |x.kids|
    ensures ExtendedMem(mem, x, k, es, np, n) ==
            mem[x.pgno := PageOf(Extended(x, k, es, np, n))][np := Page.Page(false, [], [], n)]
    ensures Extended(x, k, es, np, n).pgno == x.pgno
  {
  }

  lemma ExtendSpans(mem: File, mem': File, owned: set<nat>, pg: nat, np: nat, n: nat)
    requires SpansOwned(mem, owned) && pg in mem && Span(np, n) <= owned
    requires mem'.Keys == mem.Keys + {np} && mem'[np].span == n && (pg != np ==> mem'[pg].span == mem[pg].span)
    requires forall q :: q in mem && q != pg && q != np ==> mem'[q] == mem[q]
    ensures SpansOwned(mem', owned)
  {
  }
}
