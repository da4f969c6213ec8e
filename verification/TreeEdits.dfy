/** Exchanging one subtree of a database for another: when the pages that leave it are accounted for, it is an edit
    that the state machine allows. */
module TreeEdits {
  import opened Pages
  import opened Forest
  import opened Mvcc
  import opened MvccProof

  datatype Dbi = FreeDb | MainDb

  function TreesOf(w: Writer, dbi: Dbi): seq<Tree> {
    if dbi.FreeDb? then w.free else w.main
  }

  function OthersOf(w: Writer, dbi: Dbi): seq<Tree> {
    if dbi.FreeDb? then w.main else w.free
  }

  /** The edit that replaces one database's trees. */
  function EditOf(w: Writer, dbi: Dbi, ts: seq<Tree>, mem: File, hand: set<nat>, toFree: set<nat>, toLoose: set<nat>,
                  toHead: set<nat>): TreeEdit {
    if dbi.FreeDb? then TreeEdit(ts, w.main, mem, hand, toFree, toLoose, toHead)
    else TreeEdit(w.free, ts, mem, hand, toFree, toLoose, toHead)
  }

  lemma WriterTrees(s: State, dbi: Dbi)
    requires Inv(s) && s.writer.Some?
    ensures s.latest in s.snaps
    ensures var w := s.writer.value;
            && Stored(View(s.disk, w.mem), TreesOf(w, dbi)) && Distinct(TreesOf(w, dbi))
            && Stored(View(s.disk, w.mem), OthersOf(w, dbi)) && Distinct(OthersOf(w, dbi))
            && Reach(TreesOf(w, dbi)) !! Reach(OthersOf(w, dbi)) !! w.hand
            && w.mem.Keys <= w.owned && w.hand <= w.owned
            && Reach(TreesOf(w, dbi)) <= TreePages(w)
  {
    hide Inv, Stored, Distinct, Reach, Shielded, SaveDone, LatestRecords, ListedAbove, Span;
    WriterFacts(s);
  }

  /** The two files agree on these pages. */
  ghost predicate Agree(d: File, e: File, pages: set<nat>) {
    forall q :: q in pages && q in d ==> q in e && e[q] == d[q]
  }

  /** New trees for one database that account for the old ones' pages make an edit. */
  lemma ForestEdit(s: State, dbi: Dbi, ts: seq<Tree>, mem: File, hand: set<nat>, toFree: set<nat>, toLoose: set<nat>,
                   toHead: set<nat>)
    requires Inv(s) && s.writer.Some?
    requires Distinct(ts) && Stored(View(s.disk, mem), ts)
    requires var w := s.writer.value;
             && (Reach(ts) !! hand !! toFree !! toLoose !! toHead)
             && Reach(ts) + hand + toFree + toLoose + toHead == Reach(TreesOf(w, dbi)) + w.hand
             && mem.Keys <= w.owned && toLoose <= w.owned && toHead <= w.owned && hand <= w.owned
             && Agree(View(s.disk, w.mem), View(s.disk, mem), Reach(OthersOf(w, dbi)))
    ensures s.latest in s.snaps
    ensures EditOk(s, s.writer.value, EditOf(s.writer.value, dbi, ts, mem, hand, toFree, toLoose, toHead))
  {
    var w := s.writer.value;
    WriterTrees(s, dbi);
    hide Inv, Stored, Distinct, Reach, View, EditOk, EditOf;
    StoredFrame(View(s.disk, w.mem), View(s.disk, mem), OthersOf(w, dbi));
    Account(Reach(TreesOf(w, dbi)), Reach(OthersOf(w, dbi)), w.hand, Reach(ts), hand, toFree, toLoose, toHead);
    IsEdit(s, dbi, ts, mem, hand, toFree, toLoose, toHead);
  }

  lemma Account(mine: set<nat>, others: set<nat>, had: set<nat>, now: set<nat>, hand: set<nat>, a: set<nat>,
                b: set<nat>, c: set<nat>)
    requires mine !! others !! had && now !! hand !! a !! b !! c && now + hand + a + b + c == mine + had
    ensures others !! now && now + others !! hand !! a !! b !! c
    ensures (now + others) + hand + a + b + c == (mine + others) + had
  {
  }

  lemma IsEdit(s: State, dbi: Dbi, ts: seq<Tree>, mem: File, hand: set<nat>, toFree: set<nat>, toLoose: set<nat>,
               toHead: set<nat>)
    requires s.writer.Some?
    requires var w := s.writer.value;
             && Distinct(ts) && Stored(View(s.disk, mem), ts)
             && Distinct(OthersOf(w, dbi)) && Stored(View(s.disk, mem), OthersOf(w, dbi))
             && Reach(OthersOf(w, dbi)) !! Reach(ts)
             && (Reach(ts) + Reach(OthersOf(w, dbi)) !! hand !! toFree !! toLoose !! toHead)
             && (Reach(ts) + Reach(OthersOf(w, dbi))) + hand + toFree + toLoose + toHead ==
                  (Reach(TreesOf(w, dbi)) + Reach(OthersOf(w, dbi))) + w.hand
             && mem.Keys <= w.owned && toLoose <= w.owned && toHead <= w.owned && hand <= w.owned
    ensures EditOk(s, s.writer.value, EditOf(s.writer.value, dbi, ts, mem, hand, toFree, toLoose, toHead))
  {
    hide Stored, Distinct, Reach, View;
    var w := s.writer.value;
    assert Reach(w.free) + Reach(w.main) == Reach(TreesOf(w, dbi)) + Reach(OthersOf(w, dbi));
  }

  /** The file with the subtree at p exchanged: the new one is there, its parent's page names it, the rest is
      untouched. */
  ghost predicate Written(d: File, e: File, ts: seq<Tree>, p: seq<nat>, t: Tree, pages: set<nat>) {
    && OnForest(ts, p)
    && (|p| > 1 ==> p[|p| - 1] < |ParentOf(ts, p).kids|)
    && Distinct([t]) && Stored(e, [t])
    && (|p| > 1 ==> ParentOf(ts, p).pgno in e && e[ParentOf(ts, p).pgno] == PageOf(ParentPut(ts, p, t)))
    && forall q :: q in pages && q !in Reach([At(ts, p)]) && (|p| > 1 ==> q != ParentOf(ts, p).pgno) && q in d ==>
         q in e && e[q] == d[q]
  }

  /** The pages of the subtree and of the writer's hand, redistributed. */
  ghost predicate Dealt(owned: set<nat>, x: set<nat>, had: set<nat>, y: set<nat>, hand: set<nat>, toFree: set<nat>,
                        toLoose: set<nat>, toHead: set<nat>) {
    && (y !! hand !! toFree !! toLoose !! toHead)
    && y + hand + toFree + toLoose + toHead == x + had
    && toLoose <= owned && toHead <= owned && hand <= owned
  }

  /** Exchanging the subtree at p is an edit. */
  ghost predicate Exchanged(s: State, dbi: Dbi, p: seq<nat>, t: Tree, mem: File, hand: set<nat>, toFree: set<nat>,
                            toLoose: set<nat>, toHead: set<nat>)
    requires s.writer.Some?
  {
    var w := s.writer.value;
    var ts := TreesOf(w, dbi);
    && OnForest(ts, p)
    && Written(View(s.disk, w.mem), View(s.disk, mem), ts, p, t, TreePages(w))
    && Dealt(w.owned, Reach([At(ts, p)]), w.hand, Reach([t]), hand, toFree, toLoose, toHead)
    && mem.Keys <= w.owned
  }

  lemma PageEdit(s: State, dbi: Dbi, p: seq<nat>, t: Tree, mem: File, hand: set<nat>, toFree: set<nat>,
                 toLoose: set<nat>, toHead: set<nat>)
    requires Inv(s) && s.writer.Some? && Exchanged(s, dbi, p, t, mem, hand, toFree, toLoose, toHead)
    ensures s.latest in s.snaps && OnForest(TreesOf(s.writer.value, dbi), p)
    ensures EditOk(s, s.writer.value,
      EditOf(s.writer.value, dbi, Put(TreesOf(s.writer.value, dbi), p, t), mem, hand, toFree, toLoose, toHead))
  {
    hide Inv, Stored, Distinct, Reach, View, PageOf, Put, EditOk, EditOf;
    var w := s.writer.value;
    var ts, x := TreesOf(w, dbi), Reach([At(TreesOf(w, dbi), p)]);
    WriterTrees(s, dbi);
    PutDistinct(ts, p, t);
    PutStored(View(s.disk, w.mem), View(s.disk, mem), ts, p, t);
    if |p| > 1 { ParentFacts(View(s.disk, w.mem), ts, p); }
    Redistribute(Reach(ts), x, w.hand, Reach([t]), hand, toFree, toLoose, toHead);
    ForestEdit(s, dbi, Put(ts, p, t), mem, hand, toFree, toLoose, toHead);
  }

  lemma Redistribute(all: set<nat>, x: set<nat>, had: set<nat>, y: set<nat>, hand: set<nat>, a: set<nat>, b: set<nat>,
                     c: set<nat>)
    requires all !! had && x <= all && y !! hand !! a !! b !! c && y + hand + a + b + c == x + had
    ensures y !! (all - x) && (all - x) + y !! hand !! a !! b !! c && ((all - x) + y) + hand + a + b + c == all + had
  {
  }

  // ---------------------------------------------------------------- touch

  /** The pages as mdb_page_touch leaves them: a copy under the new number, and the parent naming it. */
  function Touched(mem: File, ts: seq<Tree>, p: seq<nat>, np: nat): File
    requires OnForest(ts, p) && (|p| > 1 ==> p[|p| - 1] < |ParentOf(ts, p).kids|)
  {
    var x := At(ts, p);
    var t := x.(pgno := np);
    (if |p| > 1 then mem[ParentOf(ts, p).pgno := PageOf(ParentPut(ts, p, t))] else mem)[np := PageOf(x)]
  }

  lemma TouchExchanges(s: State, dbi: Dbi, p: seq<nat>, np: nat)
    requires Inv(s) && s.writer.Some? && OnForest(TreesOf(s.writer.value, dbi), p)
    requires At(TreesOf(s.writer.value, dbi), p).span == 1 && np in s.writer.value.hand
    requires |p| > 1 ==> ParentOf(TreesOf(s.writer.value, dbi), p).pgno in s.writer.value.mem
    ensures |p| > 1 ==> p[|p| - 1] < |ParentOf(TreesOf(s.writer.value, dbi), p).kids|
    ensures var w := s.writer.value;
            var ts := TreesOf(w, dbi);
            var x := At(ts, p);
            Exchanged(s, dbi, p, x.(pgno := np), Touched(w.mem, ts, p, np), w.hand - {np}, {x.pgno}, {}, {})
  {
    hide Inv, Stored, Distinct, Reach, PageOf, Touched, View, Written, Dealt;
    var w := s.writer.value;
    var ts := TreesOf(w, dbi);
    var d := View(s.disk, w.mem);
    WriterTrees(s, dbi);
    SubtreeFacts(d, ts, p);
    if |p| > 1 { ParentFacts(d, ts, p); }
    assert TreePages(w) == Reach(ts) + Reach(OthersOf(w, dbi));
    TouchWritten(s.disk, w.mem, ts, p, np, TreePages(w));
    TouchDealt(w.owned, At(ts, p), w.hand, np, Reach(ts));
    TouchedView(s.disk, w.mem, ts, p, np);
  }

  lemma TouchWritten(disk: File, mem: File, ts: seq<Tree>, p: seq<nat>, np: nat, pages: set<nat>)
    requires Stored(View(disk, mem), ts) && Distinct(ts) && OnForest(ts, p) && At(ts, p).span == 1
    requires np !in pages && Reach(ts) <= pages && (|p| > 1 ==> p[|p| - 1] < |ParentOf(ts, p).kids|)
    ensures Written(View(disk, mem), View(disk, Touched(mem, ts, p, np)), ts, p, At(ts, p).(pgno := np), pages)
    ensures Reach([At(ts, p).(pgno := np)]) == {np} + Reach(At(ts, p).kids)
  {
    hide Stored, Distinct, Reach, PageOf, Touched, View;
    var d, e := View(disk, mem), View(disk, Touched(mem, ts, p, np));
    SubtreeFacts(d, ts, p);
    if |p| > 1 {
      ParentFacts(d, ts, p);
      ParentOutside(ts, p);
    }
    TouchedView(disk, mem, ts, p, np);
    TouchedSubtree(d, e, ts, p, np);
  }

  lemma TouchDealt(owned: set<nat>, x: Tree, had: set<nat>, np: nat, all: set<nat>)
    requires x.span == 1 && Distinct([x]) && Reach([x]) <= all && all !! had && np in had && had <= owned
    ensures Dealt(owned, Reach([x]), had, {np} + Reach(x.kids), had - {np}, {x.pgno}, {}, {})
  {
    hide Distinct, Reach;
    Single(map[], x);
    OnePage(x.pgno);
  }

  /** Which pages a touch writes. */
  lemma TouchedView(disk: File, mem: File, ts: seq<Tree>, p: seq<nat>, np: nat)
    requires OnForest(ts, p) && (|p| > 1 ==> p[|p| - 1] < |ParentOf(ts, p).kids| && np != ParentOf(ts, p).pgno)
    ensures var e := View(disk, Touched(mem, ts, p, np));
            && np in e && e[np] == PageOf(At(ts, p))
            && (|p| > 1 ==>
                 ParentOf(ts, p).pgno in e &&
                 e[ParentOf(ts, p).pgno] == PageOf(ParentPut(ts, p, At(ts, p).(pgno := np))))
            && (forall q :: q != np && (|p| > 1 ==> q != ParentOf(ts, p).pgno) ==>
                  (q in e <==> q in View(disk, mem)) && (q in e ==> e[q] == View(disk, mem)[q]))
    ensures Touched(mem, ts, p, np).Keys == mem.Keys + {np} + if |p| > 1 then {ParentOf(ts, p).pgno} else {}
  {
    hide PageOf;
  }

  /** The copy with its old children. */
  lemma TouchedSubtree(d: File, e: File, ts: seq<Tree>, p: seq<nat>, np: nat)
    requires OnForest(ts, p) && Distinct(ts) && Stored(d, [At(ts, p)]) && Distinct([At(ts, p)])
    requires Reach([At(ts, p)]) <= Reach(ts)
    requires At(ts, p).span == 1 && np !in Reach(ts) && np in e && e[np] == PageOf(At(ts, p))
    requires |p| > 1 ==> ParentOf(ts, p).pgno !in Reach([At(ts, p)])
    requires forall q :: q != np && (|p| > 1 ==> q != ParentOf(ts, p).pgno) ==>
      (q in e <==> q in d) && (q in e ==> e[q] == d[q])
    ensures var t := At(ts, p).(pgno := np);
            Distinct([t]) && Stored(e, [t]) && Reach([t]) == {np} + Reach(At(ts, p).kids)
  {
    hide Stored, Distinct, Reach, PageOf;
    var x := At(ts, p);
    var t := x.(pgno := np);
    Single(d, x);
    Single(e, t);
    SamePage(x, t);
    OnePage(np);
    StoredFrame(d, e, x.kids);
  }

  lemma OnePage(p: nat)
    ensures Span(p, 1) == {p}
  {
  }

  /** A subtree of stored trees without sharing. */
  lemma {:induction false} SubtreeFacts(d: File, ts: seq<Tree>, p: seq<nat>)
    requires Stored(d, ts) && Distinct(ts) && OnForest(ts, p)
    ensures Stored(d, [At(ts, p)]) && Distinct([At(ts, p)]) && Reach([At(ts, p)]) <= Reach(ts)
    decreases |p|
  {
    hide Reach, Stored, Distinct;
    Here(d, ts, p[0]);
    if |p| > 1 {
      Single(d, ts[p[0]]);
      SubtreeFacts(d, ts[p[0]].kids, p[1..]);
    }
  }

  /** The path of child indices that a cursor stack stands for; both databases have one root at most. */
  function PathTo(ki: seq<nat>, n: nat): (p: seq<nat>)
    requires n <= |ki|
    ensures |p| == n + 1
  {
    [0] + ki[..n]
  }

  /** A cursor's stack of page numbers, each the child that its parent's index names. */
  ghost predicate OnStack(ts: seq<Tree>, pgs: seq<nat>, ki: seq<nat>) {
    |pgs| == |ki| > 0 && forall n :: 0 <= n < |pgs| ==>
      OnForest(ts, PathTo(ki, n)) && At(ts, PathTo(ki, n)).pgno == pgs[n]
  }

  lemma StackTop(ts: seq<Tree>, pgs: seq<nat>, ki: seq<nat>)
    requires OnStack(ts, pgs, ki)
    ensures |pgs| == |ki| > 0
    ensures var p := PathTo(ki, |pgs| - 1);
            && OnForest(ts, p) && At(ts, p).pgno == pgs[|pgs| - 1]
            && (|pgs| > 1 ==> ParentOf(ts, p).pgno == pgs[|pgs| - 2] && p[|p| - 1] == ki[|pgs| - 2]
                              && p[|p| - 1] < |ParentOf(ts, p).kids|)
  {
    var p := PathTo(ki, |pgs| - 1);
    if |pgs| > 1 {
      ParentIsPrefix(ts, p);
      assert p[..|p| - 1] == PathTo(ki, |pgs| - 2);
      assert OnForest(ts, PathTo(ki, |pgs| - 2));
      ParentFacts(map[], ts, p);
    }
  }

  /** The stack after its top page got another number. */
  lemma StackKept(ts: seq<Tree>, pgs: seq<nat>, ki: seq<nat>, t: Tree)
    requires OnStack(ts, pgs, ki)
    ensures OnForest(ts, PathTo(ki, |pgs| - 1))
    ensures OnStack(Put(ts, PathTo(ki, |pgs| - 1), t), pgs[|pgs| - 1 := t.pgno], ki)
  {
    var p := PathTo(ki, |pgs| - 1);
    StackTop(ts, pgs, ki);
    forall n | 0 <= n < |pgs|
      ensures OnForest(Put(ts, p, t), PathTo(ki, n))
      ensures At(Put(ts, p, t), PathTo(ki, n)).pgno == pgs[|pgs| - 1 := t.pgno][n]
    {
      PutPath(ts, p, t, n + 1);
      assert p[..n + 1] == PathTo(ki, n);
      assert OnForest(ts, PathTo(ki, n));
    }
  }

  /** What a stack shows of the trees: the top page and its parent as they can be read. */
  lemma StackPages(d: File, ts: seq<Tree>, pgs: seq<nat>, ki: seq<nat>)
    requires Stored(d, ts) && Distinct(ts) && OnStack(ts, pgs, ki)
    ensures |pgs| == |ki| > 0 && OnForest(ts, PathTo(ki, |pgs| - 1))
    ensures var x, pg := At(ts, PathTo(ki, |pgs| - 1)), pgs[|pgs| - 1];
            x.pgno == pg && pg in d && d[pg] == PageOf(x) && pg in Reach(ts) && Stored(d, [x]) && Distinct([x]) &&
              Reach([x]) <= Reach(ts)
    ensures |pgs| > 1 ==>
              var p, q, i := PathTo(ki, |pgs| - 1), pgs[|pgs| - 2], ki[|pgs| - 2];
              && p[|p| - 1] == i < |ParentOf(ts, p).kids| && ParentOf(ts, p).pgno == q && q in d
              && d[q] == PageOf(ParentOf(ts, p))
  {
    hide Stored, Distinct, Reach, PageOf, OnStack;
    StackTop(ts, pgs, ki);
    var p := PathTo(ki, |pgs| - 1);
    SubtreeFacts(d, ts, p);
    Single(d, At(ts, p));
    assert pgs[|pgs| - 1] in Span(pgs[|pgs| - 1], At(ts, p).span);
    if |pgs| > 1 { ParentFacts(d, ts, p); }
  }

  /** The parent's page after the touch. */
  lemma ParentPage(ts: seq<Tree>, p: seq<nat>, t: Tree)
    requires OnForest(ts, p) && |p| > 1 && p[|p| - 1] < |ParentOf(ts, p).kids|
    ensures PageOf(ParentPut(ts, p, t)) ==
      PageOf(ParentOf(ts, p)).(kids := Roots(ParentOf(ts, p).kids)[p[|p| - 1] := t.pgno])
  {
    hide Roots;
    RootsUpdate(ParentOf(ts, p).kids, p[|p| - 1], t);
  }

  /** Writing a subtree where it was changes nothing. */
  lemma {:induction false} PutSame(ts: seq<Tree>, p: seq<nat>)
    requires OnForest(ts, p)
    ensures Put(ts, p, At(ts, p)) == ts
    decreases |p|
  {
    if |p| > 1 { PutSame(ts[p[0]].kids, p[1..]); }
  }

  /** A page under another number holds the same. */
  lemma RenumberedContent(ts: seq<Tree>, p: seq<nat>, np: nat)
    requires OnForest(ts, p)
    ensures Content(Put(ts, p, At(ts, p).(pgno := np))) == Content(ts)
  {
    PutContent(ts, p, At(ts, p).(pgno := np));
  }

  // ---------------------------------------------------------------- rewriting a subtree in place

  /** Only pages of the subtree x, and pages from the hand, are written. */
  ghost predicate WrittenWithin(mem: File, mem': File, x: Tree, used: set<nat>) {
    forall q :: q !in Reach([x]) && q !in used ==> (q in mem' <==> q in mem) && (q in mem' ==> mem'[q] == mem[q])
  }

  lemma WithinView(disk: File, mem: File, mem': File, x: Tree, used: set<nat>, q: nat)
    requires WrittenWithin(mem, mem', x, used) && q !in Reach([x]) && q !in used
    ensures (q in View(disk, mem') <==> q in View(disk, mem))
    ensures (q in View(disk, mem) ==> View(disk, mem')[q] == View(disk, mem)[q])
  {
  }

  /** The subtree keeps its number, unless it is a whole tree and the root is renamed. */
  ghost predicate SameNumber(ts: seq<Tree>, p: seq<nat>, t: Tree) {
    OnForest(ts, p) && (|p| > 1 ==> t.pgno == At(ts, p).pgno)
  }

  lemma WithinWritten(disk: File, mem: File, mem': File, ts: seq<Tree>, p: seq<nat>, t: Tree, used: set<nat>,
                      pages: set<nat>)
    requires Stored(View(disk, mem), ts) && Distinct(ts) && SameNumber(ts, p, t)
    requires Distinct([t]) && Stored(View(disk, mem'), [t]) && WrittenWithin(mem, mem', At(ts, p), used)
    requires used !! pages && Reach(ts) <= pages
    ensures Written(View(disk, mem), View(disk, mem'), ts, p, t, pages)
  {
    hide Stored, Distinct, Reach, PageOf, View, WrittenWithin;
    var d, e := View(disk, mem), View(disk, mem');
    forall q | q !in Reach([At(ts, p)]) && q !in used ensures (q in e <==> q in d) && (q in d ==> e[q] == d[q]) {
      WithinView(disk, mem, mem', At(ts, p), used, q);
    }
    if |p| > 1 {
      ParentFacts(d, ts, p);
      ParentOutside(ts, p);
      ParentSame(ts, p, t);
    }
  }

  lemma ParentSame(ts: seq<Tree>, p: seq<nat>, t: Tree)
    requires OnForest(ts, p) && |p| > 1 && p[|p| - 1] < |ParentOf(ts, p).kids|
    requires ParentOf(ts, p).kids[p[|p| - 1]].pgno == t.pgno
    ensures PageOf(ParentPut(ts, p, t)) == PageOf(ParentOf(ts, p))
  {
    hide Roots;
    RootsUpdate(ParentOf(ts, p).kids, p[|p| - 1], t);
    ParentPage(ts, p, t);
  }

  /** A subtree rewritten in place: pages of the hand join it, some of its own leave the trees. */
  lemma InPlace(s: State, dbi: Dbi, p: seq<nat>, t: Tree, mem': File, used: set<nat>, toFree: set<nat>,
                toLoose: set<nat>, toHead: set<nat>)
    requires Inv(s) && s.writer.Some? && SameNumber(TreesOf(s.writer.value, dbi), p, t)
    requires var x := At(TreesOf(s.writer.value, dbi), p);
             && Distinct([t]) && Stored(View(s.disk, mem'), [t]) && WrittenWithin(s.writer.value.mem, mem', x, used)
             && Reach([x]) + used == Reach([t]) + toFree + toLoose + toHead
             && (Reach([t]) !! toFree !! toLoose !! toHead)
    requires mem'.Keys + toLoose + toHead <= s.writer.value.owned && used <= s.writer.value.hand
    ensures Exchanged(s, dbi, p, t, mem', s.writer.value.hand - used, toFree, toLoose, toHead)
  {
    hide Inv, Stored, Distinct, Reach, View, WrittenWithin, Written;
    var w := s.writer.value;
    var ts := TreesOf(w, dbi);
    WriterTrees(s, dbi);
    SubtreeFacts(View(s.disk, w.mem), ts, p);
    WithinWritten(s.disk, w.mem, mem', ts, p, t, used, TreePages(w));
    HandApart(Reach([At(ts, p)]), Reach(ts), w.hand, used, Reach([t]), toFree, toLoose, toHead);
  }

  lemma HandApart(x: set<nat>, all: set<nat>, hand: set<nat>, used: set<nat>, y: set<nat>, a: set<nat>, b: set<nat>,
                  c: set<nat>)
    requires x <= all && all !! hand && used <= hand && x + used == y + a + b + c && y !! a !! b !! c
    ensures y !! (hand - used) !! a !! b !! c && y + (hand - used) + a + b + c == x + hand
  {
  }

  // ---------------------------------------------------------------- merge

  /** The nodes of s appended to those of d. */
  function Joined(d: Tree, s: Tree): Tree {
    d.(entries := d.entries + s.entries, kids := d.kids + s.kids)
  }

  /** Branch b with child i + 1 merged into child i. */
  function Merged(b: Tree, i: nat): Tree
    requires i + 1 < |b.kids|
  {
    b.(kids := b.kids[..i] + [Joined(b.kids[i], b.kids[i + 1])] + b.kids[i + 2..])
  }

  /** Two pages of one kind, and on leaves only overflow pages below. */
  ghost predicate Siblings(x: Tree, y: Tree) {
    x.span == 1 && y.span == 1 && x.leaf == y.leaf && (x.leaf ==> Content(x.kids) == [])
  }

  lemma KidsSplit(b: Tree, i: nat)
    requires i + 1 < |b.kids|
    ensures b.kids == b.kids[..i] + ([b.kids[i]] + ([b.kids[i + 1]] + b.kids[i + 2..]))
    ensures Merged(b, i).kids == b.kids[..i] + ([Joined(b.kids[i], b.kids[i + 1])] + b.kids[i + 2..])
  {
  }

  lemma MergedPage(b: Tree, i: nat)
    requires i + 1 < |b.kids|
    ensures PageOf(b).kids == Roots(b.kids) && |Roots(b.kids)| == |b.kids|
    ensures Roots(b.kids)[i] == b.kids[i].pgno && Roots(b.kids)[i + 1] == b.kids[i + 1].pgno
    ensures PageOf(Merged(b, i)) == PageOf(b).(kids := Roots(b.kids)[..i + 1] + Roots(b.kids)[i + 2..])
  {
    hide Roots;
    var x, y, A, C := b.kids[i], b.kids[i + 1], b.kids[..i], b.kids[i + 2..];
    KidsSplit(b, i);
    RootsConcat(A, [x] + ([y] + C));
    RootsConcat([x], [y] + C);
    RootsConcat([y], C);
    RootsConcat(A, [Joined(x, y)] + C);
    RootsConcat([Joined(x, y)], C);
    RootOfOne(x);
    RootOfOne(y);
    RootOfOne(Joined(x, y));
  }

  lemma RootOfOne(t: Tree)
    ensures Roots([t]) == [t.pgno]
  {
  }

  lemma JoinedPage(x: Tree, y: Tree)
    ensures PageOf(Joined(x, y)) ==
      PageOf(x).(entries := PageOf(x).entries + PageOf(y).entries, kids := PageOf(x).kids + PageOf(y).kids)
  {
    RootsConcat(x.kids, y.kids);
  }

  lemma JoinedPages(d: File, e: File, x: Tree, y: Tree)
    requires x.span == 1 && y.span == 1 && Stored(d, [x]) && Stored(d, [y]) && Distinct([x]) && Distinct([y])
    requires Reach([x]) !! Reach([y])
    requires x.pgno in e && e[x.pgno] == PageOf(Joined(x, y))
    requires forall q :: q in Reach(x.kids) + Reach(y.kids) && q in d ==> q in e && e[q] == d[q]
    ensures Distinct([Joined(x, y)]) && Stored(e, [Joined(x, y)])
    ensures Reach([Joined(x, y)]) + {y.pgno} == Reach([x]) + Reach([y]) && y.pgno !in Reach([Joined(x, y)])
  {
    hide Stored, Distinct, Reach, PageOf;
    Single(d, x);
    Single(d, y);
    Single(e, Joined(x, y));
    OnePage(x.pgno);
    OnePage(y.pgno);
    ReachConcat(x.kids, y.kids);
    DistinctConcat(x.kids, y.kids);
    StoredFrame(d, e, x.kids);
    StoredFrame(d, e, y.kids);
    StoredConcat(e, x.kids, y.kids);
  }

  /** Three parts of a list, apart and stored. */
  lemma Parted(d: File, a: seq<Tree>, m: seq<Tree>, c: seq<Tree>)
    ensures Reach(a + (m + c)) == Reach(a) + Reach(m) + Reach(c)
    ensures Distinct(a + (m + c)) <==> Distinct(a) && Distinct(m) && Distinct(c) && (Reach(a) !! Reach(m) !! Reach(c))
    ensures Stored(d, a + (m + c)) <==> Stored(d, a) && Stored(d, m) && Stored(d, c)
  {
    hide Stored, Distinct, Reach;
    ReachConcat(a, m + c);
    ReachConcat(m, c);
    DistinctConcat(a, m + c);
    DistinctConcat(m, c);
    StoredConcat(d, a, m + c);
    StoredConcat(d, m, c);
  }

  /** The pages of a branch, two of its children taken apart. */
  lemma MergeParts(d: File, b: Tree, i: nat)
    requires i + 1 < |b.kids| && Stored(d, [b]) && Distinct([b]) && b.kids[i].span == 1 && b.kids[i + 1].span == 1
    ensures var x, y, A, C := b.kids[i], b.kids[i + 1], b.kids[..i], b.kids[i + 2..];
            && Stored(d, A) && Stored(d, [x]) && Stored(d, [y]) && Stored(d, C)
            && Distinct(A) && Distinct([x]) && Distinct([y]) && Distinct(C)
            && Reach([x]) !! Reach([y]) && (Reach(A) !! (Reach([x]) + Reach([y])) !! Reach(C))
            && Span(b.pgno, b.span) !! (Reach(A) + (Reach([x]) + Reach([y])) + Reach(C)) && b.span >= 1
            && Reach([b]) == Span(b.pgno, b.span) + (Reach(A) + (Reach([x]) + Reach([y])) + Reach(C))
    ensures var x, y, A, C := b.kids[i], b.kids[i + 1], b.kids[..i], b.kids[i + 2..];
            b.pgno !in Reach(x.kids) + Reach(y.kids) + Reach(A) + Reach(C) &&
              x.pgno !in Reach(x.kids) + Reach(y.kids) + Reach(A) + Reach(C)
    ensures b.kids[i].pgno in Reach([b]) && b.pgno in Reach([b])
  {
    hide Stored, Distinct, Reach, PageOf;
    var x, y, A, C := b.kids[i], b.kids[i + 1], b.kids[..i], b.kids[i + 2..];
    KidsSplit(b, i);
    assert [x] + ([y] + C) == ([x] + [y]) + C;
    Single(d, b);
    Parted(d, A, [x] + [y], C);
    ReachConcat([x], [y]);
    DistinctConcat([x], [y]);
    StoredConcat(d, [x], [y]);
    Single(d, x);
    Single(d, y);
    assert b.pgno in Span(b.pgno, b.span) && x.pgno in Span(x.pgno, 1);
    OnePage(x.pgno);
    OnePage(y.pgno);
    JoinedApart(Span(b.pgno, b.span), Reach(A), Reach([x]), Reach(x.kids), Reach([y]), Reach(y.kids), Reach(C), b.pgno,
      x.pgno);
  }

  lemma MergedPages(d: File, e: File, b: Tree, i: nat)
    requires i + 1 < |b.kids| && b.kids[i].span == 1 && b.kids[i + 1].span == 1 && Stored(d, [b]) && Distinct([b])
    requires b.pgno in e && e[b.pgno] == PageOf(Merged(b, i))
    requires b.kids[i].pgno in e && e[b.kids[i].pgno] == PageOf(Joined(b.kids[i], b.kids[i + 1]))
    requires forall q :: q != b.pgno && q != b.kids[i].pgno && q in d ==> q in e && e[q] == d[q]
    ensures Distinct([Merged(b, i)]) && Stored(e, [Merged(b, i)])
    ensures Reach([Merged(b, i)]) + {b.kids[i + 1].pgno} == Reach([b]) && b.kids[i + 1].pgno !in Reach([Merged(b, i)])
    ensures b.kids[i].pgno in Reach([b]) && b.pgno in Reach([b])
  {
    hide Stored, Distinct, Reach, PageOf, Span;
    var x, y, A, C := b.kids[i], b.kids[i + 1], b.kids[..i], b.kids[i + 2..];
    var j := Joined(x, y);
    MergeParts(d, b, i);
    KidsSplit(b, i);
    Single(e, Merged(b, i));
    JoinedPages(d, e, x, y);
    StoredFrame(d, e, A);
    StoredFrame(d, e, C);
    Parted(e, A, [j], C);
    JoinedSets(Span(b.pgno, b.span), Reach(A), Reach([x]), Reach([y]), Reach(C), Reach([j]), y.pgno);
  }

  lemma JoinedApart(own: set<nat>, a: set<nat>, x: set<nat>, xk: set<nat>, y: set<nat>, yk: set<nat>, c: set<nat>,
                    b: nat, xp: nat)
    requires own !! (a + (x + y) + c) && (a !! (x + y) !! c) && x !! y && b in own && xp in x && x == {xp} + xk
    requires xp !in xk && yk <= y
    ensures b !in xk + yk + a + c && xp !in xk + yk + a + c
  {
  }

  lemma JoinedSets(own: set<nat>, a: set<nat>, x: set<nat>, y: set<nat>, c: set<nat>, j: set<nat>, q: nat)
    requires own !! (a + (x + y) + c) && (a !! (x + y) !! c) && j + {q} == x + y && q !in j
    ensures a !! j !! c && own !! (a + j + c) && (own + (a + j + c)) + {q} == own + (a + (x + y) + c)
    ensures q !in own + (a + j + c)
  {
  }

  lemma OneContent(t: Tree)
    ensures Content([t]) == (if t.leaf then t.entries else []) + Content(t.kids)
  {
    assert Content([t]) == (if t.leaf then t.entries else []) + Content(t.kids) + Content([]);
  }

  /** A merge keeps the contents, in order. */
  lemma MergedContent(b: Tree, i: nat)
    requires i + 1 < |b.kids| && Siblings(b.kids[i], b.kids[i + 1])
    ensures Content([Merged(b, i)]) == Content([b])
  {
    hide Content;
    var x, y, A, C := b.kids[i], b.kids[i + 1], b.kids[..i], b.kids[i + 2..];
    KidsSplit(b, i);
    OneContent(b);
    OneContent(Merged(b, i));
    OneContent(x);
    OneContent(y);
    OneContent(Joined(x, y));
    ContentConcat(x.kids, y.kids);
    ContentConcat(A, [x] + ([y] + C));
    ContentConcat([x], [y] + C);
    ContentConcat([y], C);
    ContentConcat(A, [Joined(x, y)] + C);
    ContentConcat([Joined(x, y)], C);
    assert Content([Joined(x, y)]) == Content([x]) + Content([y]);
  }

  function MergedMem(mem: File, b: Tree, i: nat): File
    requires i + 1 < |b.kids|
  {
    mem[b.pgno := PageOf(Merged(b, i))][b.kids[i].pgno := PageOf(Joined(b.kids[i], b.kids[i + 1]))]
  }

  lemma MergedView(disk: File, mem: File, b: Tree, i: nat)
    requires i + 1 < |b.kids| && b.kids[i].pgno != b.pgno
    ensures var e := View(disk, MergedMem(mem, b, i));
            && b.pgno in e && e[b.pgno] == PageOf(Merged(b, i))
            && b.kids[i].pgno in e && e[b.kids[i].pgno] == PageOf(Joined(b.kids[i], b.kids[i + 1]))
            && forall q :: q != b.pgno && q != b.kids[i].pgno && q in View(disk, mem) ==>
                 q in e && e[q] == View(disk, mem)[q]
    ensures b.pgno in Reach([b]) && b.kids[i].pgno in Reach([b]) ==> WrittenWithin(mem, MergedMem(mem, b, i), b, {})
    ensures MergedMem(mem, b, i).Keys == mem.Keys + {b.pgno, b.kids[i].pgno}
  {
    hide PageOf, Reach;
  }

  /** Merging two children of the branch at p, whose pages are dirty, is an edit: the right child's page leaves. */
  lemma MergeExchanges(s: State, dbi: Dbi, p: seq<nat>, i: nat, toFree: set<nat>, toLoose: set<nat>)
    requires Inv(s) && s.writer.Some? && OnForest(TreesOf(s.writer.value, dbi), p)
    requires i + 1 < |At(TreesOf(s.writer.value, dbi), p).kids|
    requires var b := At(TreesOf(s.writer.value, dbi), p);
             && b.pgno in s.writer.value.mem && b.kids[i].pgno in s.writer.value.mem && b.kids[i].span == 1
             && b.kids[i + 1].span == 1
             && toFree !! toLoose && toFree + toLoose == {b.kids[i + 1].pgno} && toLoose <= s.writer.value.owned
    ensures var b := At(TreesOf(s.writer.value, dbi), p);
            Exchanged(s, dbi, p, Merged(b, i), MergedMem(s.writer.value.mem, b, i), s.writer.value.hand, toFree,
              toLoose, {})
  {
    hide Inv, Stored, Distinct, Reach, View, WrittenWithin, PageOf, MergedMem, Exchanged, OthersOf;
    var w := s.writer.value;
    var ts := TreesOf(w, dbi);
    WriterTrees(s, dbi);
    SubtreeFacts(View(s.disk, w.mem), ts, p);
    MergeOnFile(s.disk, w.mem, At(ts, p), i);
    InPlace(s, dbi, p, Merged(At(ts, p), i), MergedMem(w.mem, At(ts, p), i), {}, toFree, toLoose, {});
    assert w.hand - {} == w.hand;
  }

  lemma MergeOnFile(disk: File, mem: File, b: Tree, i: nat)
    requires i + 1 < |b.kids| && b.kids[i].span == 1 && b.kids[i + 1].span == 1 && Stored(View(disk, mem), [b])
    requires Distinct([b])
    ensures Distinct([Merged(b, i)]) && Stored(View(disk, MergedMem(mem, b, i)), [Merged(b, i)])
    ensures Merged(b, i).pgno == b.pgno
    ensures Reach([Merged(b, i)]) + {b.kids[i + 1].pgno} == Reach([b]) && b.kids[i + 1].pgno !in Reach([Merged(b, i)])
    ensures WrittenWithin(mem, MergedMem(mem, b, i), b, {})
    ensures MergedMem(mem, b, i).Keys == mem.Keys + {b.pgno, b.kids[i].pgno}
  {
    hide Stored, Distinct, Reach, View, WrittenWithin, PageOf, MergedMem;
    MergeParts(View(disk, mem), b, i);
    KidInside(b, i);
    MergedView(disk, mem, b, i);
    MergedPages(View(disk, mem), View(disk, MergedMem(mem, b, i)), b, i);
  }

  /** No child has its parent's number. */
  lemma KidInside(b: Tree, i: nat)
    requires Distinct([b]) && i < |b.kids| && b.kids[i].span >= 1
    ensures b.kids[i].pgno != b.pgno
  {
    hide Distinct, Reach;
    Single(map[], b);
    Here(map[], b.kids, i);
    Single(map[], b.kids[i]);
    assert b.kids[i].pgno in Span(b.kids[i].pgno, b.kids[i].span);
    assert b.pgno in Span(b.pgno, b.span);
  }

  /** The parent of an exchanged subtree. */
  lemma {:induction false} PutParent(ts: seq<Tree>, p: seq<nat>, t: Tree)
    requires OnForest(ts, p) && |p| > 1 && p[|p| - 1] < |ParentOf(ts, p).kids|
    ensures OnForest(ts, p[..|p| - 1]) && At(ts, p[..|p| - 1]) == ParentOf(ts, p)
    ensures OnForest(Put(ts, p, t), p[..|p| - 1]) && At(Put(ts, p, t), p[..|p| - 1]) == ParentPut(ts, p, t)
    ensures |p| > 2 ==> |p| - 1 == |p[..|p| - 1]|
    decreases |p|
  {
    var q := p[..|p| - 1];
    if |p| > 2 {
      PutParent(ts[p[0]].kids, p[1..], t);
      assert q[1..] == p[1..][..|p[1..]| - 1];
    }
  }

  lemma {:induction false} PutParentSame(ts: seq<Tree>, p: seq<nat>, t: Tree, u: Tree)
    requires OnForest(ts, p) && |p| > 1 && p[|p| - 1] < |ParentOf(ts, p).kids|
    requires OnForest(Put(ts, p, t), p[..|p| - 1]) && OnForest(ts, p[..|p| - 1])
    ensures Put(Put(ts, p, t), p[..|p| - 1], u) == Put(ts, p[..|p| - 1], u)
    decreases |p|
  {
    var q := p[..|p| - 1];
    if |p| > 2 {
      assert q[1..] == p[1..][..|p[1..]| - 1];
      PutParentSame(ts[p[0]].kids, p[1..], t, u);
    }
  }

  // ---------------------------------------------------------------- split

  /** Child i of b split in two: its first m children and the nodes `left` stay, the others go to a new page np. */
  function SplitKids(x: Tree, left: seq<Entry>, right: seq<Entry>, m: nat, np: nat): seq<Tree>
    requires m <= |x.kids|
  {
    [x.(entries := left, kids := x.kids[..m]), Node(np, x.leaf, right, x.kids[m..], 1)]
  }

  function SplitAt(b: Tree, i: nat, left: seq<Entry>, right: seq<Entry>, m: nat, np: nat): Tree
    requires i < |b.kids| && m <= |b.kids[i].kids|
  {
    b.(kids := b.kids[..i] + (SplitKids(b.kids[i], left, right, m, np) + b.kids[i + 1..]))
  }

  function SplitMem(mem: File, b: Tree, i: nat, left: seq<Entry>, right: seq<Entry>, m: nat, np: nat): File
    requires i < |b.kids| && m <= |b.kids[i].kids|
  {
    var k := SplitKids(b.kids[i], left, right, m, np);
    mem[b.pgno := PageOf(SplitAt(b, i, left, right, m, np))][k[0].pgno := PageOf(k[0])][np := PageOf(k[1])]
  }

  /** The two halves as pages. */
  lemma SplitPages(b: Tree, i: nat, left: seq<Entry>, right: seq<Entry>, m: nat, np: nat)
    requires i < |b.kids| && m <= |b.kids[i].kids|
    ensures var k, x := SplitKids(b.kids[i], left, right, m, np), PageOf(b.kids[i]);
            && m <= |x.kids| && i < |PageOf(b).kids| && PageOf(b).kids[i] == b.kids[i].pgno
            && PageOf(k[0]) == x.(entries := left, kids := x.kids[..m])
            && PageOf(k[1]) == Page(x.leaf, right, x.kids[m..], 1)
            && PageOf(SplitAt(b, i, left, right, m, np)) ==
                 PageOf(b).(kids := PageOf(b).kids[..i + 1] + [np] + PageOf(b).kids[i + 1..])
  {
    hide Roots;
    var x, A, C := b.kids[i], b.kids[..i], b.kids[i + 1..];
    var k := SplitKids(x, left, right, m, np);
    assert x.kids == x.kids[..m] + x.kids[m..];
    RootsConcat(x.kids[..m], x.kids[m..]);
    assert b.kids == A + ([x] + C) && k == [k[0]] + [k[1]];
    RootsConcat(A, [x] + C);
    RootsConcat([x], C);
    RootsConcat(A, k + C);
    RootsConcat(k, C);
    RootsConcat([k[0]], [k[1]]);
    RootOfOne(x);
    RootOfOne(k[0]);
    RootOfOne(k[1]);
  }

  lemma SplitOne(d: File, e: File, x: Tree, left: seq<Entry>, right: seq<Entry>, m: nat, np: nat)
    requires m <= |x.kids| && x.span == 1 && Stored(d, [x]) && Distinct([x]) && np !in Reach([x])
    requires var k := SplitKids(x, left, right, m, np);
             && x.pgno in e && e[x.pgno] == PageOf(k[0]) && np in e && e[np] == PageOf(k[1])
    requires forall q :: q in Reach(x.kids) && q in d ==> q in e && e[q] == d[q]
    ensures var k := SplitKids(x, left, right, m, np);
            Distinct(k) && Stored(e, k) && Reach(k) == Reach([x]) + {np}
  {
    hide Stored, Distinct, Reach, PageOf, Span;
    var k := SplitKids(x, left, right, m, np);
    var a, c := x.kids[..m], x.kids[m..];
    Single(d, x);
    assert x.kids == a + c;
    StoredFrame(d, e, x.kids);
    StoredConcat(e, a, c);
    ReachConcat(a, c);
    DistinctConcat(a, c);
    OnePage(x.pgno);
    OnePage(np);
    PairOf(e, k[0], k[1]);
    HalvesApart(x.pgno, np, Reach(a), Reach(c));
  }

  lemma HalvesApart(x: nat, np: nat, a: set<nat>, c: set<nat>)
    requires x !in a + c && np !in a + c && x != np && a !! c
    ensures ({x} + a) !! ({np} + c) && {x} !! a && {np} !! c && ({x} + a) + ({np} + c) == ({x} + (a + c)) + {np}
  {
  }

  lemma PairOf(e: File, u: Tree, v: Tree)
    ensures Reach([u, v]) == (Span(u.pgno, u.span) + Reach(u.kids)) + (Span(v.pgno, v.span) + Reach(v.kids))
    ensures Distinct([u]) && Distinct([v]) && Reach([u]) !! Reach([v]) ==> Distinct([u, v])
    ensures Reach([u]) == Span(u.pgno, u.span) + Reach(u.kids) && Reach([v]) == Span(v.pgno, v.span) + Reach(v.kids)
    ensures Distinct([u]) <==> u.span >= 1 && Span(u.pgno, u.span) !! Reach(u.kids) && Distinct(u.kids)
    ensures Distinct([v]) <==> v.span >= 1 && Span(v.pgno, v.span) !! Reach(v.kids) && Distinct(v.kids)
    ensures Stored(e, [u]) && Stored(e, [v]) ==> Stored(e, [u, v])
    ensures Stored(e, [u]) <==> u.pgno in e && e[u.pgno] == PageOf(u) && u.span >= 1 && Stored(e, u.kids)
    ensures Stored(e, [v]) <==> v.pgno in e && e[v.pgno] == PageOf(v) && v.span >= 1 && Stored(e, v.kids)
  {
    hide Stored, Distinct, Reach, PageOf, Span;
    assert [u, v] == [u] + [v];
    Single(e, u);
    Single(e, v);
    ReachConcat([u], [v]);
    DistinctConcat([u], [v]);
    StoredConcat(e, [u], [v]);
  }

  lemma SplitOnFile(disk: File, mem: File, b: Tree, i: nat, left: seq<Entry>, right: seq<Entry>, m: nat, np: nat)
    requires i < |b.kids| && m <= |b.kids[i].kids| && b.kids[i].span == 1 && Stored(View(disk, mem), [b])
    requires Distinct([b]) && np !in Reach([b])
    ensures var t := SplitAt(b, i, left, right, m, np);
            && Distinct([t]) && Stored(View(disk, SplitMem(mem, b, i, left, right, m, np)), [t]) && t.pgno == b.pgno
            && Reach([t]) == Reach([b]) + {np}
    ensures WrittenWithin(mem, SplitMem(mem, b, i, left, right, m, np), b, {np})
    ensures SplitMem(mem, b, i, left, right, m, np).Keys == mem.Keys + {b.pgno, b.kids[i].pgno, np}
  {
    hide Stored, Distinct, Reach, PageOf, View, WrittenWithin, SplitMem, Span;
    var d, e := View(disk, mem), View(disk, SplitMem(mem, b, i, left, right, m, np));
    var x, A, C := b.kids[i], b.kids[..i], b.kids[i + 1..];
    OneKid(d, b, i);
    SplitView(disk, mem, b, i, left, right, m, np);
    SplitOne(d, e, x, left, right, m, np);
    StoredFrame(d, e, A);
    StoredFrame(d, e, C);
    Parted(e, A, SplitKids(x, left, right, m, np), C);
    Single(e, SplitAt(b, i, left, right, m, np));
    SplitSets(Span(b.pgno, b.span), Reach(A), Reach([x]), Reach(C), np);
  }

  lemma SplitSets(own: set<nat>, a: set<nat>, x: set<nat>, c: set<nat>, np: nat)
    requires own !! (a + x + c) && (a !! x !! c) && np !in own + (a + x + c)
    ensures a !! (x + {np}) !! c && own !! (a + (x + {np}) + c)
    ensures own + (a + (x + {np}) + c) == own + (a + x + c) + {np}
  {
  }

  /** The pages of a tree, one child taken apart. */
  lemma OneKid(d: File, b: Tree, i: nat)
    requires i < |b.kids| && Stored(d, [b]) && Distinct([b])
    ensures var x, A, C := b.kids[i], b.kids[..i], b.kids[i + 1..];
            && Stored(d, A) && Stored(d, [x]) && Stored(d, C) && Distinct(A) && Distinct([x]) && Distinct(C)
            && (Reach(A) !! Reach([x]) !! Reach(C)) && Span(b.pgno, b.span) !! (Reach(A) + Reach([x]) + Reach(C))
            && b.span >= 1
            && Reach([b]) == Span(b.pgno, b.span) + (Reach(A) + Reach([x]) + Reach(C))
            && b.pgno != x.pgno && b.pgno in Span(b.pgno, b.span) && x.pgno in Reach([x]) && x.pgno !in Reach(x.kids)
            && Reach(x.kids) <= Reach([x])
    ensures b.pgno in Reach([b]) && b.kids[i].pgno in Reach([b])
  {
    hide Stored, Distinct, Reach, PageOf;
    var x, A, C := b.kids[i], b.kids[..i], b.kids[i + 1..];
    Single(d, b);
    assert b.kids == A + ([x] + C);
    Parted(d, A, [x], C);
    Single(d, x);
    assert b.pgno in Span(b.pgno, b.span) && x.pgno in Span(x.pgno, x.span);
  }

  lemma SplitView(disk: File, mem: File, b: Tree, i: nat, left: seq<Entry>, right: seq<Entry>, m: nat, np: nat)
    requires i < |b.kids| && m <= |b.kids[i].kids| && b.kids[i].pgno != b.pgno && np != b.pgno && np != b.kids[i].pgno
    ensures var k, e := SplitKids(b.kids[i], left, right, m, np), View(disk, SplitMem(mem, b, i, left, right, m, np));
            && b.pgno in e && e[b.pgno] == PageOf(SplitAt(b, i, left, right, m, np))
            && b.kids[i].pgno in e && e[b.kids[i].pgno] == PageOf(k[0]) && np in e && e[np] == PageOf(k[1])
            && forall q :: q != b.pgno && q != b.kids[i].pgno && q != np && q in View(disk, mem) ==>
                 q in e && e[q] == View(disk, mem)[q]
    ensures b.pgno in Reach([b]) && b.kids[i].pgno in Reach([b]) ==>
      WrittenWithin(mem, SplitMem(mem, b, i, left, right, m, np), b, {np})
    ensures SplitMem(mem, b, i, left, right, m, np).Keys == mem.Keys + {b.pgno, b.kids[i].pgno, np}
  {
    hide PageOf, Reach, SplitAt;
  }

  /** Splitting a dirty child of the dirty branch at p is an edit: the new page leaves the hand. */
  lemma SplitExchanges(s: State, dbi: Dbi, p: seq<nat>, i: nat, left: seq<Entry>, right: seq<Entry>, m: nat, np: nat)
    requires Inv(s) && s.writer.Some? && OnForest(TreesOf(s.writer.value, dbi), p)
    requires i < |At(TreesOf(s.writer.value, dbi), p).kids|
    requires var b := At(TreesOf(s.writer.value, dbi), p);
             && m <= |b.kids[i].kids| && b.pgno in s.writer.value.mem && b.kids[i].pgno in s.writer.value.mem
             && b.kids[i].span == 1
             && np in s.writer.value.hand
    ensures var b := At(TreesOf(s.writer.value, dbi), p);
            Exchanged(s, dbi, p, SplitAt(b, i, left, right, m, np),
              SplitMem(s.writer.value.mem, b, i, left, right, m, np),
                      s.writer.value.hand - {np}, {}, {}, {})
  {
    hide Inv, Stored, Distinct, Reach, View, WrittenWithin, PageOf, SplitMem, Exchanged, OthersOf;
    var w := s.writer.value;
    var ts := TreesOf(w, dbi);
    WriterTrees(s, dbi);
    SubtreeFacts(View(s.disk, w.mem), ts, p);
    SplitOnFile(s.disk, w.mem, At(ts, p), i, left, right, m, np);
    InPlace(s, dbi, p, SplitAt(At(ts, p), i, left, right, m, np), SplitMem(w.mem, At(ts, p), i, left, right, m, np),
      {np}, {}, {}, {});
  }

  // ---------------------------------------------------------------- the root

  /** A branch page np above the tree x. */
  function Above(x: Tree, np: nat): Tree {
    Node(np, false, [], [x], 1)
  }

  lemma AboveOnFile(disk: File, mem: File, x: Tree, np: nat)
    requires Stored(View(disk, mem), [x]) && Distinct([x]) && np !in Reach([x])
    ensures var t, mem' := Above(x, np), mem[np := Page(false, [], [x.pgno], 1)];
            && Distinct([t]) && Stored(View(disk, mem'), [t]) && Reach([t]) == Reach([x]) + {np}
            && WrittenWithin(mem, mem', x, {np}) && Content([t]) == Content([x])
  {
    hide Stored, Distinct, Reach, Content;
    var t, mem' := Above(x, np), mem[np := Page(false, [], [x.pgno], 1)];
    RootOfOne(x);
    OnePage(np);
    Single(View(disk, mem'), t);
    OneContent(t);
    StoredFrame(View(disk, mem), View(disk, mem'), [x]);
  }

  /** The only child of a branch in its place. */
  lemma OnlyKid(d: File, x: Tree)
    requires Stored(d, [x]) && Distinct([x]) && x.span == 1 && |x.kids| == 1 && !x.leaf
    ensures var t := x.kids[0];
            && Distinct([t]) && Stored(d, [t]) && Reach([x]) == Reach([t]) + {x.pgno} && x.pgno !in Reach([t])
            && Content([t]) == Content([x])
  {
    hide Stored, Distinct, Reach, Content;
    Single(d, x);
    OnePage(x.pgno);
    OneContent(x);
    assert [x.kids[0]] == x.kids;
  }

  lemma RootExchanges(s: State, dbi: Dbi, np: nat)
    requires Inv(s) && s.writer.Some? && |TreesOf(s.writer.value, dbi)| == 1 && np in s.writer.value.hand
    ensures var x, mem := TreesOf(s.writer.value, dbi)[0], s.writer.value.mem;
            Exchanged(s, dbi, [0], Above(x, np), mem[np := Page(false, [], [x.pgno], 1)], s.writer.value.hand - {np},
              {}, {}, {})
  {
    hide Inv, Stored, Distinct, Reach, View, WrittenWithin, PageOf, Exchanged, OthersOf, Content;
    var w := s.writer.value;
    var x := TreesOf(w, dbi)[0];
    WriterTrees(s, dbi);
    SubtreeFacts(View(s.disk, w.mem), TreesOf(w, dbi), [0]);
    AboveOnFile(s.disk, w.mem, x, np);
    InPlace(s, dbi, [0], Above(x, np), w.mem[np := Page(false, [], [x.pgno], 1)], {np}, {}, {}, {});
  }

  lemma CollapseExchanges(s: State, dbi: Dbi)
    requires Inv(s) && s.writer.Some? && |TreesOf(s.writer.value, dbi)| == 1
    requires var x := TreesOf(s.writer.value, dbi)[0]; x.span == 1 && |x.kids| == 1 && !x.leaf
    ensures var x, w := TreesOf(s.writer.value, dbi)[0], s.writer.value;
            Exchanged(s, dbi, [0], x.kids[0], w.mem, w.hand, {x.pgno}, {}, {})
  {
    hide Inv, Stored, Distinct, Reach, View, PageOf, Exchanged, OthersOf, Content;
    var w := s.writer.value;
    var x := TreesOf(w, dbi)[0];
    WriterTrees(s, dbi);
    SubtreeFacts(View(s.disk, w.mem), TreesOf(w, dbi), [0]);
    OnlyKid(View(s.disk, w.mem), x);
    InPlace(s, dbi, [0], x.kids[0], w.mem, {}, {x.pgno}, {}, {});
    assert w.hand - {} == w.hand;
  }

  // ---------------------------------------------------------------- overflow pages

  /** Leaf x without the overflow page k, its nodes rewritten. */
  function Dropped(x: Tree, k: nat, es: seq<Entry>): Tree
    requires k < |x.kids|
  {
    x.(entries := es, kids := x.kids[..k] + x.kids[k + 1..])
  }

  lemma DroppedPage(x: Tree, k: nat, es: seq<Entry>)
    requires k < |x.kids|
    ensures k < |PageOf(x).kids| && PageOf(x).kids[k] == x.kids[k].pgno
    ensures PageOf(Dropped(x, k, es)) ==
      PageOf(x).(entries := es, kids := PageOf(x).kids[..k] + PageOf(x).kids[k + 1..])
  {
    hide Roots;
    var A, y, C := x.kids[..k], x.kids[k], x.kids[k + 1..];
    assert x.kids == A + ([y] + C);
    RootsConcat(A, [y] + C);
    RootsConcat([y], C);
    RootsConcat(A, C);
    RootOfOne(y);
  }

  /** The dirty pages after the leaf was rewritten; the overflow page goes when it is given back. */
  function DroppedMem(mem: File, x: Tree, k: nat, es: seq<Entry>, back: bool): File
    requires k < |x.kids|
  {
    var m := mem[x.pgno := PageOf(Dropped(x, k, es))];
    if back then m - {x.kids[k].pgno} else m
  }

  lemma DroppedOnFile(disk: File, mem: File, x: Tree, k: nat, es: seq<Entry>, back: bool)
    requires k < |x.kids| && x.kids[k].kids == [] && Stored(View(disk, mem), [x]) && Distinct([x])
    ensures var t, y, mem' := Dropped(x, k, es), x.kids[k], DroppedMem(mem, x, k, es, back);
            && Distinct([t]) && Stored(View(disk, mem'), [t]) && Reach([x]) == Reach([t]) + Span(y.pgno, y.span)
            && Reach([t]) !! Span(y.pgno, y.span) && WrittenWithin(mem, mem', x, {}) && y.span >= 1 && y.pgno != x.pgno
  {
    hide Stored, Distinct, Reach, PageOf, Span, View, WrittenWithin, DroppedMem;
    var t, y, mem' := Dropped(x, k, es), x.kids[k], DroppedMem(mem, x, k, es, back);
    var d, e := View(disk, mem), View(disk, mem');
    var A, C := x.kids[..k], x.kids[k + 1..];
    OneKid(d, x, k);
    Single(d, y);
    NoReach();
    DroppedView(disk, mem, x, k, es, back);
    StoredFrame(d, e, A);
    StoredFrame(d, e, C);
    ReachConcat(A, C);
    DistinctConcat(A, C);
    StoredConcat(e, A, C);
    Single(e, t);
    DroppedSets(Span(x.pgno, x.span), Reach(A), Reach([y]), Reach(C));
  }

  lemma NoReach()
    ensures Reach([]) == {}
  {
  }

  lemma DroppedSets(own: set<nat>, a: set<nat>, y: set<nat>, c: set<nat>)
    requires own !! (a + y + c) && (a !! y !! c)
    ensures a !! c && own !! (a + c) && own + (a + y + c) == (own + (a + c)) + y && (own + (a + c)) !! y
  {
  }

  lemma DroppedView(disk: File, mem: File, x: Tree, k: nat, es: seq<Entry>, back: bool)
    requires k < |x.kids| && x.kids[k].pgno != x.pgno
    ensures var e := View(disk, DroppedMem(mem, x, k, es, back));
            && x.pgno in e && e[x.pgno] == PageOf(Dropped(x, k, es))
            && forall q :: q != x.pgno && q != x.kids[k].pgno && q in View(disk, mem) ==>
                 q in e && e[q] == View(disk, mem)[q]
    ensures x.pgno in Reach([x]) && x.kids[k].pgno in Reach([x]) ==>
      WrittenWithin(mem, DroppedMem(mem, x, k, es, back), x, {})
    ensures DroppedMem(mem, x, k, es, back).Keys <= mem.Keys + {x.pgno}
  {
    hide PageOf, Reach, Dropped;
  }

  /** Freeing an overflow page of the dirty leaf at p is an edit: its pages go where the caller says. */
  lemma DropExchanges(s: State, dbi: Dbi, p: seq<nat>, k: nat, es: seq<Entry>, back: bool, toFree: set<nat>,
                      toHead: set<nat>)
    requires Inv(s) && s.writer.Some? && OnForest(TreesOf(s.writer.value, dbi), p)
    requires k < |At(TreesOf(s.writer.value, dbi), p).kids|
    requires var x := At(TreesOf(s.writer.value, dbi), p);
             && x.kids[k].kids == [] && x.pgno in s.writer.value.mem
             && toFree !! toHead && toFree + toHead == Span(x.kids[k].pgno, x.kids[k].span)
             && toHead <= s.writer.value.owned
    ensures var x := At(TreesOf(s.writer.value, dbi), p);
            Exchanged(s, dbi, p, Dropped(x, k, es), DroppedMem(s.writer.value.mem, x, k, es, back), s.writer.value.hand,
              toFree, {}, toHead)
  {
    hide Inv, Stored, Distinct, Reach, View, WrittenWithin, PageOf, Exchanged, OthersOf, DroppedMem, Span;
    var w := s.writer.value;
    var ts := TreesOf(w, dbi);
    WriterTrees(s, dbi);
    SubtreeFacts(View(s.disk, w.mem), ts, p);
    DroppedOnFile(s.disk, w.mem, At(ts, p), k, es, back);
    DroppedView(s.disk, w.mem, At(ts, p), k, es, back);
    InPlace(s, dbi, p, Dropped(At(ts, p), k, es), DroppedMem(w.mem, At(ts, p), k, es, back), {}, toFree, {}, toHead);
    assert w.hand - {} == w.hand;
  }

  /** An overflow page of n pages at np. */
  function Overflow(np: nat, n: nat): Tree {
    Node(np, false, [], [], n)
  }

  /** Leaf x with an overflow page as child k, its nodes rewritten. */
  function Extended(x: Tree, k: nat, es: seq<Entry>, np: nat, n: nat): Tree
    requires k <= |x.kids|
  {
    x.(entries := es, kids := x.kids[..k] + ([Overflow(np, n)] + x.kids[k..]))
  }

  lemma ExtendedPage(x: Tree, k: nat, es: seq<Entry>, np: nat, n: nat)
    requires k <= |x.kids|
    ensures k <= |PageOf(x).kids|
    ensures PageOf(Extended(x, k, es, np, n)) ==
            PageOf(x).(entries := es, kids := PageOf(x).kids[..k] + [np] + PageOf(x).kids[k..])
  {
    hide Roots;
    var A, C := x.kids[..k], x.kids[k..];
    assert x.kids == A + C;
    RootsConcat(A, C);
    RootsConcat(A, [Overflow(np, n)] + C);
    RootsConcat([Overflow(np, n)], C);
    RootOfOne(Overflow(np, n));
  }

  function ExtendedMem(mem: File, x: Tree, k: nat, es: seq<Entry>, np: nat, n: nat): File
    requires k <= |x.kids|
  {
    mem[x.pgno := PageOf(Extended(x, k, es, np, n))][np := Page(false, [], [], n)]
  }

  lemma ExtendedView(disk: File, mem: File, x: Tree, k: nat, es: seq<Entry>, np: nat, n: nat)
    requires k <= |x.kids| && np != x.pgno && n >= 1
    ensures var e := View(disk, ExtendedMem(mem, x, k, es, np, n));
            && x.pgno in e && e[x.pgno] == PageOf(Extended(x, k, es, np, n))
            && np in e && e[np] == PageOf(Overflow(np, n))
            && forall q :: q != x.pgno && q != np && q in View(disk, mem) ==> q in e && e[q] == View(disk, mem)[q]
    ensures x.pgno in Reach([x]) ==> WrittenWithin(mem, ExtendedMem(mem, x, k, es, np, n), x, Span(np, n))
    ensures ExtendedMem(mem, x, k, es, np, n).Keys == mem.Keys + {x.pgno, np}
  {
    hide Reach, Extended, PageOf, Span, Overflow;
    OverflowPage(np, n);
    assert np in Span(np, n);
  }

  lemma OverflowPage(np: nat, n: nat)
    ensures PageOf(Overflow(np, n)) == Page(false, [], [], n)
  {
  }

  lemma ExtendedOnFile(disk: File, mem: File, x: Tree, k: nat, es: seq<Entry>, np: nat, n: nat)
    requires k <= |x.kids| && n >= 1 && Stored(View(disk, mem), [x]) && Distinct([x]) && Span(np, n) !! Reach([x])
    ensures var t, mem' := Extended(x, k, es, np, n), ExtendedMem(mem, x, k, es, np, n);
            && Distinct([t]) && Stored(View(disk, mem'), [t]) && Reach([t]) == Reach([x]) + Span(np, n)
            && WrittenWithin(mem, mem', x, Span(np, n))
  {
    hide Stored, Distinct, Reach, PageOf, Span, View, WrittenWithin, ExtendedMem;
    var t, o, mem' := Extended(x, k, es, np, n), Overflow(np, n), ExtendedMem(mem, x, k, es, np, n);
    var d, e := View(disk, mem), View(disk, mem');
    var A, C := x.kids[..k], x.kids[k..];
    assert x.kids == A + C && np in Span(np, n);
    Single(d, x);
    assert x.pgno in Span(x.pgno, x.span);
    ReachConcat(A, C);
    DistinctConcat(A, C);
    StoredConcat(d, A, C);
    ExtendedView(disk, mem, x, k, es, np, n);
    StoredFrame(d, e, A);
    StoredFrame(d, e, C);
    OverflowAlone(e, np, n);
    Parted(e, A, [o], C);
    Single(e, t);
    ExtendedSets(Span(x.pgno, x.span), Reach(A), Reach(C), Span(np, n));
  }

  lemma OverflowAlone(e: File, np: nat, n: nat)
    requires n >= 1 && np in e && e[np] == PageOf(Overflow(np, n))
    ensures Distinct([Overflow(np, n)]) && Stored(e, [Overflow(np, n)]) && Reach([Overflow(np, n)]) == Span(np, n)
  {
    hide Span;
    Single(e, Overflow(np, n));
  }

  lemma ExtendedSets(own: set<nat>, a: set<nat>, c: set<nat>, o: set<nat>)
    requires own !! (a + c) && a !! c && o !! (own + (a + c))
    ensures (a !! o !! c) && own !! (a + o + c) && own + (a + o + c) == (own + (a + c)) + o
  {
  }

  /** Linking an overflow run of the hand to the dirty leaf at p is an edit. */
  lemma ExtendExchanges(s: State, dbi: Dbi, p: seq<nat>, k: nat, es: seq<Entry>, np: nat, n: nat)
    requires Inv(s) && s.writer.Some? && OnForest(TreesOf(s.writer.value, dbi), p) && n >= 1
    requires k <= |At(TreesOf(s.writer.value, dbi), p).kids|
    requires At(TreesOf(s.writer.value, dbi), p).pgno in s.writer.value.mem && Span(np, n) <= s.writer.value.hand
    ensures var x := At(TreesOf(s.writer.value, dbi), p);
            Exchanged(s, dbi, p, Extended(x, k, es, np, n), ExtendedMem(s.writer.value.mem, x, k, es, np, n),
                      s.writer.value.hand - Span(np, n), {}, {}, {})
  {
    hide Inv, Stored, Distinct, Reach, View, WrittenWithin, PageOf, Exchanged, OthersOf, ExtendedMem, Span;
    var w := s.writer.value;
    var ts := TreesOf(w, dbi);
    WriterTrees(s, dbi);
    SubtreeFacts(View(s.disk, w.mem), ts, p);
    assert np in Span(np, n);
    ExtendedOnFile(s.disk, w.mem, At(ts, p), k, es, np, n);
    ExtendedKeys(w.mem, At(ts, p), k, es, np, n);
    InPlace(s, dbi, p, Extended(At(ts, p), k, es, np, n), ExtendedMem(w.mem, At(ts, p), k, es, np, n), Span(np, n), {},
      {}, {});
  }

  lemma ExtendedKeys(mem: File, x: Tree, k: nat, es: seq<Entry>, np: nat, n: nat)
    requires k <= |x.kids|
    ensures ExtendedMem(mem, x, k, es, np, n).Keys == mem.Keys + {x.pgno, np}
  {
  }
}
