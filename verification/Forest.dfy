/** Changing one page of a tree: what it does to the pages reached, and which pages of the file must be rewritten. */
module Forest {
  import opened Pages

  /** p names a page: an index among the roots, then the child to take on each level. */
  ghost predicate OnForest(ts: seq<Tree>, p: seq<nat>)
    decreases |p|
  {
    p != [] && p[0] < |ts| && (|p| > 1 ==> OnForest(ts[p[0]].kids, p[1..]))
  }

  function At(ts: seq<Tree>, p: seq<nat>): Tree
    requires OnForest(ts, p)
    decreases |p|
  {
    if |p| == 1 then ts[p[0]] else At(ts[p[0]].kids, p[1..])
  }

  /** The forest with the subtree at p replaced. */
  function Put(ts: seq<Tree>, p: seq<nat>, t: Tree): seq<Tree>
    requires OnForest(ts, p)
    decreases |p|
  {
    ts[p[0] := if |p| == 1 then t else ts[p[0]].(kids := Put(ts[p[0]].kids, p[1..], t))]
  }

  lemma {:induction false} ReachConcat(a: seq<Tree>, b: seq<Tree>)
    ensures Reach(a + b) == Reach(a) + Reach(b)
  {
    if a == [] {
      assert a + b == b;
    } else {
      assert (a + b)[1..] == a[1..] + b;
      ReachConcat(a[1..], b);
    }
  }

  lemma {:induction false} DistinctConcat(a: seq<Tree>, b: seq<Tree>)
    ensures Distinct(a + b) <==> Distinct(a) && Distinct(b) && Reach(a) !! Reach(b)
  {
    if a == [] {
      assert a + b == b;
    } else {
      assert (a + b)[1..] == a[1..] + b;
      DistinctConcat(a[1..], b);
      ReachConcat(a[1..], b);
    }
  }

  lemma {:induction false} StoredConcat(d: File, a: seq<Tree>, b: seq<Tree>)
    ensures Stored(d, a + b) <==> Stored(d, a) && Stored(d, b)
  {
    if a == [] {
      assert a + b == b;
    } else {
      assert (a + b)[1..] == a[1..] + b;
      StoredConcat(d, a[1..], b);
    }
  }

  lemma {:induction false} RootsConcat(a: seq<Tree>, b: seq<Tree>)
    ensures Roots(a + b) == Roots(a) + Roots(b)
  {
    if a == [] {
      assert a + b == b;
    } else {
      assert (a + b)[1..] == a[1..] + b;
      RootsConcat(a[1..], b);
    }
  }

  lemma RootsUpdate(ts: seq<Tree>, i: nat, t: Tree)
    requires i < |ts|
    ensures Roots(ts)[i] == ts[i].pgno && Roots(ts[i := t]) == Roots(ts)[i := t.pgno]
  {
    var a, b := ts[..i], ts[i + 1..];
    RootsConcat(a, [ts[i]] + b);
    RootsConcat([ts[i]], b);
    RootsConcat(a, [t] + b);
    RootsConcat([t], b);
    assert ts == a + ([ts[i]] + b) && ts[i := t] == a + ([t] + b);
    assert Roots([ts[i]]) == [ts[i].pgno] && Roots([t]) == [t.pgno];
  }

  /** One tree of a list apart from the others. */
  lemma Around(d: File, ts: seq<Tree>, i: nat, t: Tree)
    requires i < |ts|
    ensures var rest := Reach(ts[..i]) + Reach(ts[i + 1..]);
            && Reach(ts[i := t]) == rest + Reach([t])
            && (Distinct(ts[i := t]) <==>
                 Distinct(ts[..i]) && Distinct(ts[i + 1..]) &&
                 Reach(ts[..i]) !! Reach(ts[i + 1..])
                 && Distinct([t]) && Reach([t]) !! rest)
            && (Stored(d, ts[i := t]) <==> Stored(d, ts[..i]) && Stored(d, ts[i + 1..]) && Stored(d, [t]))
  {
    hide Reach, Distinct, Stored;
    var a, b := ts[..i], ts[i + 1..];
    assert ts[i := t] == a + ([t] + b);
    ReachConcat(a, [t] + b);
    ReachConcat([t], b);
    DistinctConcat(a, [t] + b);
    DistinctConcat([t], b);
    StoredConcat(d, a, [t] + b);
    StoredConcat(d, [t], b);
  }

  lemma Single(d: File, t: Tree)
    ensures Reach([t]) == Span(t.pgno, t.span) + Reach(t.kids)
    ensures Distinct([t]) <==> t.span >= 1 && Span(t.pgno, t.span) !! Reach(t.kids) && Distinct(t.kids)
    ensures Stored(d, [t]) <==> t.pgno in d && d[t.pgno] == PageOf(t) && t.span >= 1 && Stored(d, t.kids)
  {
  }

  /** A list with one tree exchanged for itself is the list. */
  lemma Here(d: File, ts: seq<Tree>, i: nat)
    requires i < |ts|
    ensures var rest := Reach(ts[..i]) + Reach(ts[i + 1..]);
            && Reach(ts) == rest + Reach([ts[i]])
            && (Distinct(ts) ==> Distinct(ts[..i]) && Distinct(ts[i + 1..]) && Reach(ts[..i]) !! Reach(ts[i + 1..])
                                 && Distinct([ts[i]]) && Reach([ts[i]]) !! rest)
            && (Stored(d, ts) ==> Stored(d, ts[..i]) && Stored(d, ts[i + 1..]) && Stored(d, [ts[i]]))
  {
    hide Reach, Distinct, Stored;
    Around(d, ts, i, ts[i]);
    assert ts[i := ts[i]] == ts;
  }

  /** A deeper change keeps the root page numbers; a change at a root puts the new number there. */
  lemma PutRoots(ts: seq<Tree>, p: seq<nat>, t: Tree)
    requires OnForest(ts, p)
    ensures Roots(Put(ts, p, t)) == if |p| == 1 then Roots(ts)[p[0] := t.pgno] else Roots(ts)
  {
    if |p| == 1 {
      RootsUpdate(ts, p[0], t);
    } else {
      var u := ts[p[0]].(kids := Put(ts[p[0]].kids, p[1..], t));
      RootsUpdate(ts, p[0], u);
      assert Roots(ts)[p[0] := u.pgno] == Roots(ts);
    }
  }

  /** The pages of the changed forest are the old ones with the subtree's pages exchanged; no page is used twice. */
  lemma {:induction false} PutDistinct(ts: seq<Tree>, p: seq<nat>, t: Tree)
    requires Distinct(ts) && OnForest(ts, p) && Distinct([t]) && Reach([t]) !! (Reach(ts) - Reach([At(ts, p)]))
    ensures Distinct(Put(ts, p, t)) && Reach([At(ts, p)]) <= Reach(ts)
    ensures Reach(Put(ts, p, t)) == (Reach(ts) - Reach([At(ts, p)])) + Reach([t])
    decreases |p|, 0
  {
    hide Reach, Distinct, Stored, Span;
    var i, u, x := p[0], ts[p[0]], Reach([At(ts, p)]);
    var rest := Reach(ts[..i]) + Reach(ts[i + 1..]);
    Here(map[], ts, i);
    if |p| == 1 {
      Around(map[], ts, i, t);
    } else {
      Single(map[], u);
      PutDistinctBelow(u, p[1..], t, Reach(ts));
      var u' := u.(kids := Put(u.kids, p[1..], t));
      Single(map[], u');
      Exchange(Reach(ts), rest, Span(u.pgno, u.span), Reach(u.kids), x, Reach([t]), Reach(u'.kids));
      Around(map[], ts, i, u');
    }
  }

  lemma Exchange(all: set<nat>, rest: set<nat>, own: set<nat>, kids: set<nat>, x: set<nat>, y: set<nat>,
                 kids': set<nat>)
    requires all == rest + (own + kids) && rest !! own + kids && own !! kids && x <= kids && y !! (all - x)
    requires kids' == (kids - x) + y
    ensures rest !! own + kids' && rest + (own + kids') == (all - x) + y && x <= all
  {
  }

  lemma {:induction false} PutDistinctBelow(u: Tree, p: seq<nat>, t: Tree, all: set<nat>)
    requires OnForest(u.kids, p) && Distinct([u]) && Distinct([t]) && Reach([u]) <= all
    requires Reach([t]) !! (all - Reach([At(u.kids, p)]))
    ensures var kids := Put(u.kids, p, t);
            && Distinct(kids) && Span(u.pgno, u.span) !! Reach(kids) && Reach([At(u.kids, p)]) <= Reach(u.kids)
            && Reach(kids) == (Reach(u.kids) - Reach([At(u.kids, p)])) + Reach([t])
    decreases |p|, 1
  {
    hide Reach, Distinct, Stored;
    Single(map[], u);
    PutDistinct(u.kids, p, t);
  }

  function ParentOf(ts: seq<Tree>, p: seq<nat>): Tree
    requires OnForest(ts, p) && |p| > 1
    decreases |p|
  {
    if |p| == 2 then ts[p[0]] else ParentOf(ts[p[0]].kids, p[1..])
  }

  /** The page that names the changed page as its child. */
  lemma {:induction false} ParentFacts(d: File, ts: seq<Tree>, p: seq<nat>)
    requires OnForest(ts, p) && |p| > 1
    ensures ParentOf(ts, p).pgno in Reach(ts) || ParentOf(ts, p).span == 0
    ensures p[|p| - 1] < |ParentOf(ts, p).kids| && ParentOf(ts, p).kids[p[|p| - 1]] == At(ts, p)
    ensures Stored(d, ts) ==>
      ParentOf(ts, p).pgno in d && d[ParentOf(ts, p).pgno] == PageOf(ParentOf(ts, p)) &&
      ParentOf(ts, p).span >= 1
    ensures ParentOf(ts, p).pgno in Reach(ts) || !Stored(d, ts)
    decreases |p|
  {
    hide Reach, Stored;
    var u := ts[p[0]];
    Here(d, ts, p[0]);
    Single(d, u);
    if |p| > 2 {
      ParentFacts(d, u.kids, p[1..]);
    }
  }

  /** In the changed forest the parent has the new child. */
  function ParentPut(ts: seq<Tree>, p: seq<nat>, t: Tree): Tree
    requires OnForest(ts, p) && |p| > 1 && p[|p| - 1] < |ParentOf(ts, p).kids|
  {
    ParentOf(ts, p).(kids := ParentOf(ts, p).kids[p[|p| - 1] := t])
  }

  /** The file holds the changed forest when it holds the new subtree, its parent's page names it, and the other pages
      are as they were. */
  lemma {:induction false} PutStored(d: File, e: File, ts: seq<Tree>, p: seq<nat>, t: Tree)
    requires Distinct(ts) && Stored(d, ts) && OnForest(ts, p) && Stored(e, [t])
    requires |p| > 1 ==> p[|p| - 1] < |ParentOf(ts, p).kids|
    requires |p| > 1 ==> ParentOf(ts, p).pgno in e && e[ParentOf(ts, p).pgno] == PageOf(ParentPut(ts, p, t))
    requires forall q :: q in Reach(ts) && q !in Reach([At(ts, p)]) && (|p| > 1 ==> q != ParentOf(ts, p).pgno) ==>
      (q in d ==> q in e && e[q] == d[q])
    ensures Stored(e, Put(ts, p, t))
    decreases |p|
  {
    hide Reach, Distinct, Stored, PageOf;
    var i, u, x := p[0], ts[p[0]], At(ts, p);
    Here(d, ts, i);
    Single(d, u);
    PathReach(u, ts, p);
    OthersStored(d, e, ts, p);
    if |p| == 1 {
      Around(e, ts, i, t);
    } else {
      var u' := u.(kids := Put(u.kids, p[1..], t));
      ParentFacts(d, ts, p);
      if |p| > 2 {
        ParentFacts(d, u.kids, p[1..]);
        PutRoots(u.kids, p[1..], t);
        SamePage(u, u');
      } else {
        assert u' == ParentPut(ts, p, t);
      }
      PutStored(d, e, u.kids, p[1..], t);
      Single(e, u');
      Around(e, ts, i, u');
    }
  }

  lemma SamePage(u: Tree, u': Tree)
    requires u'.leaf == u.leaf && u'.entries == u.entries && u'.span == u.span && Roots(u'.kids) == Roots(u.kids)
    ensures PageOf(u') == PageOf(u)
  {
  }

  /** What p names lies in the tree that its first index names. */
  lemma PathReach(u: Tree, ts: seq<Tree>, p: seq<nat>)
    requires OnForest(ts, p) && u == ts[p[0]]
    ensures Reach([At(ts, p)]) <= Reach([u]) && (|p| > 1 ==> Reach([At(ts, p)]) <= Reach(u.kids))
    decreases |p|
  {
    hide Reach;
    if |p| > 1 {
      Single(map[], u);
      Here(map[], u.kids, p[1]);
      PathReach(u.kids[p[1]], u.kids, p[1..]);
    }
  }

  /** The trees beside the one that p leads into. */
  lemma OthersStored(d: File, e: File, ts: seq<Tree>, p: seq<nat>)
    requires Distinct(ts) && Stored(d, ts) && OnForest(ts, p)
    requires forall q :: q in Reach(ts) && q !in Reach([At(ts, p)]) && (|p| > 1 ==> q != ParentOf(ts, p).pgno) ==>
      (q in d ==> q in e && e[q] == d[q])
    ensures Stored(e, ts[..p[0]]) && Stored(e, ts[p[0] + 1..])
  {
    hide Reach, Distinct, Stored;
    var i := p[0];
    Here(d, ts, i);
    PathReach(ts[i], ts, p);
    if |p| > 1 { ParentInside(d, ts, p); }
    StoredFrame(d, e, ts[..i]);
    StoredFrame(d, e, ts[i + 1..]);
  }

  lemma ParentInside(d: File, ts: seq<Tree>, p: seq<nat>)
    requires OnForest(ts, p) && |p| > 1 && Stored(d, ts)
    ensures ParentOf(ts, p).pgno in Reach([ts[p[0]]])
  {
    hide Reach, Stored;
    var u := ts[p[0]];
    Here(d, ts, p[0]);
    Single(d, u);
    if |p| > 2 { ParentFacts(d, u.kids, p[1..]); }
  }

  lemma {:induction false} ParentIsPrefix(ts: seq<Tree>, p: seq<nat>)
    requires OnForest(ts, p) && |p| > 1
    ensures OnForest(ts, p[..|p| - 1]) && At(ts, p[..|p| - 1]) == ParentOf(ts, p)
    decreases |p|
  {
    var q := p[..|p| - 1];
    if |p| > 2 {
      ParentIsPrefix(ts[p[0]].kids, p[1..]);
      assert q[1..] == p[1..][..|p[1..]| - 1];
    }
  }

  /** No page lies below itself. */
  lemma {:induction false} ParentOutside(ts: seq<Tree>, p: seq<nat>)
    requires Distinct(ts) && OnForest(ts, p) && |p| > 1
    ensures ParentOf(ts, p).pgno !in Reach([At(ts, p)])
    decreases |p|
  {
    hide Reach, Distinct;
    var u := ts[p[0]];
    Here(map[], ts, p[0]);
    Single(map[], u);
    PathReach(u, ts, p);
    if |p| == 2 {
      assert u.pgno in Span(u.pgno, u.span);
    } else {
      ParentOutside(u.kids, p[1..]);
    }
  }

  /** The page numbers on the way to p stay, and p now names the new subtree. */
  lemma {:induction false} PutPath(ts: seq<Tree>, p: seq<nat>, t: Tree, n: nat)
    requires OnForest(ts, p) && 1 <= n <= |p|
    ensures OnForest(ts, p[..n]) && OnForest(Put(ts, p, t), p[..n])
    ensures At(Put(ts, p, t), p[..n]).pgno == if n == |p| then t.pgno else At(ts, p[..n]).pgno
    ensures OnForest(Put(ts, p, t), p) && At(Put(ts, p, t), p) == t
    decreases |p|
  {
    assert n == |p| ==> p[..n] == p;
    if |p| > 1 {
      PutPath(ts[p[0]].kids, p[1..], t, if n > 1 then n - 1 else 1);
      if n > 1 { assert p[..n][1..] == p[1..][..n - 1]; }
    }
  }

  lemma {:induction false} ContentConcat(a: seq<Tree>, b: seq<Tree>)
    ensures Content(a + b) == Content(a) + Content(b)
  {
    if a == [] {
      assert a + b == b;
    } else {
      assert (a + b)[1..] == a[1..] + b;
      ContentConcat(a[1..], b);
    }
  }

  /** Exchanging a subtree for one with the same contents keeps the contents of the whole. */
  lemma {:induction false} PutContent(ts: seq<Tree>, p: seq<nat>, t: Tree)
    requires OnForest(ts, p) && Content([t]) == Content([At(ts, p)])
    ensures Content(Put(ts, p, t)) == Content(ts)
    decreases |p|
  {
    var i, u := p[0], ts[p[0]];
    var v := if |p| == 1 then t else u.(kids := Put(u.kids, p[1..], t));
    if |p| > 1 {
      PutContent(u.kids, p[1..], t);
      assert Content([u]) == (if u.leaf then u.entries else []) + Content(u.kids) + [];
      assert Content([v]) == (if v.leaf then v.entries else []) + Content(v.kids) + [];
    }
    hide Content;
    var a, b := ts[..i], ts[i + 1..];
    assert ts == a + ([u] + b) && Put(ts, p, t) == a + ([v] + b);
    ContentConcat(a, [u] + b);
    ContentConcat([u], b);
    ContentConcat(a, [v] + b);
    ContentConcat([v], b);
  }

  // ---------------------------------------------------------------- levels

  /** The children of a level, in order. */
  function Below(ts: seq<Tree>): seq<Tree> {
    if ts == [] then [] else ts[0].kids + Below(ts[1..])
  }

  /** The pages of one level. */
  function Spans(ts: seq<Tree>): set<nat> {
    if ts == [] then {} else Span(ts[0].pgno, ts[0].span) + Spans(ts[1..])
  }

  /** Number of trees in a forest, subtrees included. */
  function Size(ts: seq<Tree>): nat {
    if ts == [] then 0 else 1 + Size(ts[0].kids) + Size(ts[1..])
  }

  lemma {:induction false} SizeConcat(a: seq<Tree>, b: seq<Tree>)
    ensures Size(a + b) == Size(a) + Size(b)
  {
    if a == [] {
      assert a + b == b;
    } else {
      assert (a + b)[1..] == a[1..] + b;
      SizeConcat(a[1..], b);
    }
  }

  /** A level and what is below it are the whole forest. */
  lemma {:induction false} LevelSplit(d: File, ts: seq<Tree>)
    ensures Reach(ts) == Spans(ts) + Reach(Below(ts)) && Size(Below(ts)) == Size(ts) - |ts|
    ensures Stored(d, ts) ==> Stored(d, Below(ts))
  {
    if ts != [] {
      LevelSplit(d, ts[1..]);
      ReachConcat(ts[0].kids, Below(ts[1..]));
      SizeConcat(ts[0].kids, Below(ts[1..]));
      StoredConcat(d, ts[0].kids, Below(ts[1..]));
    }
  }

  lemma {:induction false} BelowSnoc(a: seq<Tree>, t: Tree)
    ensures Below(a + [t]) == Below(a) + t.kids && Spans(a + [t]) == Spans(a) + Span(t.pgno, t.span)
  {
    var s := a + [t];
    if a == [] {
      assert s[1..] == [];
    } else {
      assert s[1..] == a[1..] + [t];
      BelowSnoc(a[1..], t);
    }
  }

  /** Levels of trees without sharing are apart. */
  lemma {:induction false} LevelDistinct(ts: seq<Tree>)
    requires Distinct(ts)
    ensures Distinct(Below(ts)) && Spans(ts) !! Reach(Below(ts))
  {
    if ts != [] {
      LevelDistinct(ts[1..]);
      LevelSplit(map[], ts[1..]);
      DistinctConcat(ts[0].kids, Below(ts[1..]));
      ReachConcat(ts[0].kids, Below(ts[1..]));
    }
  }

  /** So are the pages of one level. */
  lemma LevelApart(ts: seq<Tree>, i: nat)
    requires Distinct(ts) && i < |ts|
    ensures Spans(ts[..i]) !! Span(ts[i].pgno, ts[i].span)
  {
    hide Reach, Distinct, Spans;
    Here(map[], ts, i);
    Single(map[], ts[i]);
    LevelSplit(map[], ts[..i]);
  }
}
