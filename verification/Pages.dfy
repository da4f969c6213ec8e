/** Pages of the data file, and the trees that a root page number names in it. */
module Pages {

  datatype Val = Data(bytes: seq<int>) | PageList(pages: seq<nat>)

  datatype Entry = Entry(key: nat, val: Val)

  /** What one page holds; an overflow run is one page with span > 1. */
  datatype Page = Page(leaf: bool, entries: seq<Entry>, kids: seq<nat>, span: nat)

  /** A page together with everything below it. */
  datatype Tree = Node(pgno: nat, leaf: bool, entries: seq<Entry>, kids: seq<Tree>, span: nat)

  type File = map<nat, Page>

  function Span(pgno: nat, n: nat): (r: set<nat>)
    ensures forall p :: p in r <==> pgno <= p < pgno + n
    ensures |r| == n
  {
    if n == 0 then {} else Span(pgno, n - 1) + {pgno + n - 1}
  }

  function Roots(ts: seq<Tree>): (r: seq<nat>)
    ensures |r| == |ts|
  {
    if ts == [] then [] else [ts[0].pgno] + Roots(ts[1..])
  }

  function PageOf(t: Tree): Page {
    Page(t.leaf, t.entries, Roots(t.kids), t.span)
  }

  /** The page numbers a forest occupies. */
  function Reach(ts: seq<Tree>): set<nat> {
    if ts == [] then {} else Span(ts[0].pgno, ts[0].span) + Reach(ts[0].kids) + Reach(ts[1..])
  }

  /** No page is used twice. */
  ghost predicate Distinct(ts: seq<Tree>) {
    ts != [] ==>
      && Span(ts[0].pgno, ts[0].span) !! Reach(ts[0].kids) !! Reach(ts[1..])
      && ts[0].span >= 1
      && Distinct(ts[0].kids)
      && Distinct(ts[1..])
  }

  /** The file holds the forest: following page numbers from its roots reads exactly these pages. */
  ghost predicate Stored(d: File, ts: seq<Tree>) {
    ts != [] ==>
      && ts[0].pgno in d && d[ts[0].pgno] == PageOf(ts[0])
      && ts[0].span >= 1
      && Stored(d, ts[0].kids)
      && Stored(d, ts[1..])
  }

  /** The key/data pairs below the roots, in order. */
  function Content(ts: seq<Tree>): seq<Entry> {
    if ts == [] then []
    else (if ts[0].leaf then ts[0].entries else []) + Content(ts[0].kids) + Content(ts[1..])
  }

  /** Number of pages, counted node by node as md_branch_pages + md_leaf_pages + md_overflow_pages. */
  function CountPages(ts: seq<Tree>): nat {
    if ts == [] then 0 else ts[0].span + CountPages(ts[0].kids) + CountPages(ts[1..])
  }

  /** Writing pages outside a forest leaves it readable. */
  lemma {:induction false} StoredFrame(d: File, e: File, ts: seq<Tree>)
    requires Stored(d, ts)
    requires forall p :: p in Reach(ts) && p in d ==> p in e && e[p] == d[p]
    ensures Stored(e, ts)
    decreases ts
  {
    if ts != [] {
      assert ts[0].pgno in Span(ts[0].pgno, ts[0].span);
      StoredFrame(d, e, ts[0].kids);
      StoredFrame(d, e, ts[1..]);
    }
  }

  /** The file determines what is read from given roots: page numbers alone fix the forest. */
  lemma {:induction false} StoredUnique(d: File, ts: seq<Tree>, us: seq<Tree>)
    requires Stored(d, ts) && Stored(d, us) && Roots(ts) == Roots(us)
    ensures ts == us
    decreases ts
  {
    assert |ts| == |us|;
    if ts != [] {
      assert ts[0].pgno == Roots(ts)[0] == Roots(us)[0] == us[0].pgno;
      StoredUnique(d, ts[0].kids, us[0].kids);
      assert Roots(ts[1..]) == Roots(ts)[1..] == Roots(us)[1..] == Roots(us[1..]);
      StoredUnique(d, ts[1..], us[1..]);
      assert ts == [ts[0]] + ts[1..] && us == [us[0]] + us[1..];
    }
  }

  /** Without sharing, the per-page counters add up to the number of pages reached. */
  lemma {:induction false} CountIsReach(ts: seq<Tree>)
    requires Distinct(ts)
    ensures CountPages(ts) == |Reach(ts)|
    decreases ts
  {
    if ts != [] {
      CountIsReach(ts[0].kids);
      CountIsReach(ts[1..]);
    }
  }

  /** A forest that two files agree on is in any file that takes each page from one of them. */
  lemma {:induction false} StoredMix(d: File, e: File, f: File, ts: seq<Tree>)
    requires Stored(d, ts) && Stored(e, ts)
    requires forall p :: p in d && p in e ==> p in f && (f[p] == d[p] || f[p] == e[p])
    ensures Stored(f, ts)
    decreases ts
  {
    if ts != [] {
      StoredMix(d, e, f, ts[0].kids);
      StoredMix(d, e, f, ts[1..]);
    }
  }
}
