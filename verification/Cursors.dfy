/** A cursor: a stack of pages with an index into each, moved by search, set, next and prev. */
module Cursors {
  import opened Seqs
  import opened BTree
  import opened BTreePut
  import opened BTreeDel
  import opened CursorPath

  const CURSOR_STACK: nat := 32

  /** Each stacked page is the child that its parent's index names. */
  ghost predicate Stacked(root: Node, pages: seq<Node>, ix: seq<nat>) {
    && |pages| == |ix| > 0 && pages[0] == root
    && forall t :: 0 <= t < |pages| - 1 ==>
         pages[t].Branch? && ix[t] < |pages[t].cs| && pages[t + 1] == pages[t].cs[ix[t]].node
  }

  /** The pages of a stack are those that the prefixes of its index path name. */
  lemma {:induction false} StackedReach(root: Node, pages: seq<Node>, ix: seq<nat>, t: nat)
    requires Stacked(root, pages, ix) && t < |pages|
    ensures OnPath(root, ix[..t]) && Reach(root, ix[..t]) == pages[t]
    decreases t
  {
    if t == 0 {
      assert ix[..0] == [];
    } else {
      StackedReach(root, pages, ix, t - 1);
      Snoc(root, ix[..t - 1], ix[t - 1]);
      assert ix[..t] == ix[..t - 1] + [ix[t - 1]];
    }
  }

  lemma StackedPush(root: Node, pages: seq<Node>, ix: seq<nat>)
    requires Stacked(root, pages, ix)
    requires var top := |pages| - 1; pages[top].Branch? && ix[top] < |pages[top].cs|
    ensures var top := |pages| - 1; Stacked(root, pages + [pages[top].cs[ix[top]].node], ix + [0])
  {
    var top := |pages| - 1;
    var pages', ix' := pages + [pages[top].cs[ix[top]].node], ix + [0];
    forall t | 0 <= t < |pages'| - 1
      ensures pages'[t].Branch? && ix'[t] < |pages'[t].cs| && pages'[t + 1] == pages'[t].cs[ix'[t]].node
    {
      assert pages'[t] == pages[t] && ix'[t] == ix[t];
    }
  }

  lemma StackedPop(root: Node, pages: seq<Node>, ix: seq<nat>, m: nat)
    requires Stacked(root, pages, ix) && 0 < m <= |pages|
    ensures Stacked(root, pages[..m], ix[..m])
  {
  }

  ghost predicate SepsIncrease(cs: seq<Child>) {
    && (forall i :: 1 <= i < |cs| ==> cs[i].key.At?)
    && forall i, j :: 1 <= i < j < |cs| ==> cs[i].key.k < cs[j].key.k
  }

  ghost predicate Searchable(mp: Node) {
    match mp
    case Leaf(es) => Increasing(es)
    case Branch(cs) => |cs| >= 2 && SepsIncrease(cs)
  }

  /** i is the first position, after the blank one of a branch page, whose key is >= k. */
  ghost predicate IsSlot(mp: Node, k: int, i: nat) {
    match mp
    case Leaf(es) => i == Pos(es, k)
    case Branch(cs) =>
      1 <= i <= |cs| && (forall j :: 1 <= j < i ==> cs[j].key.At? && cs[j].key.k < k) && (i < |cs| ==>
        cs[i].key.At? && cs[i].key.k >= k)
  }

  ghost predicate HasKeyAt(mp: Node, k: int, i: nat) {
    match mp
    case Leaf(es) => i < |es| && es[i].key == k
    case Branch(cs) => i < |cs| && cs[i].key == At(k)
  }

  /** mdb_node_search: binary search for the first node >= k; a branch page's first node is not looked at. */
  method NodeSearch(mp: Node, k: int) returns (i: nat, exact: bool)
    requires Searchable(mp)
    ensures IsSlot(mp, k, i) && (exact <==> HasKeyAt(mp, k, i))
  {
    var first := if mp.Leaf? then 0 else 1;
    var low: int, high: int, rc: int := first, Keys(mp) - 1, 0;
    i := 0;
    while low <= high
      invariant first <= low <= high + 1 <= Keys(mp)
      invariant rc != 0 || (low == first && high == Keys(mp) - 1 && i == 0)
      invariant rc > 0 ==> i + 1 == low && i < Keys(mp)
      invariant rc < 0 ==> i == low || i == high + 1
      invariant rc < 0 ==> i == high + 1
      invariant forall j :: first <= j < low ==> KeyAt(mp, j) < k
      invariant forall j :: high < j < Keys(mp) ==> KeyAt(mp, j) > k
      decreases high - low
    {
      i := (low + high) / 2;
      var key := KeyAt(mp, i);
      rc := if k < key then -1 else if k == key then 0 else 1;
      if rc == 0 { break; }
      if rc > 0 { low := i + 1; } else { high := i - 1; }
    }
    if rc > 0 { i := i + 1; }
    exact := rc == 0 && Keys(mp) > 0;
    assert forall j :: first <= j < i ==> KeyAt(mp, j) < k by {
      if exact { KeysIncrease(mp, i); }
    }
    assert i < Keys(mp) ==> KeyAt(mp, i) >= k && (exact <==> KeyAt(mp, i) == k);
    SearchResult(mp, k, i);
  }

  lemma KeysIncrease(mp: Node, i: nat)
    requires i < Keys(mp) && Searchable(mp)
    ensures forall j :: (if mp.Leaf? then 0 else 1) <= j < i ==> KeyAt(mp, j) < KeyAt(mp, i)
  {
  }

  lemma SearchResult(mp: Node, k: int, i: nat)
    requires Searchable(mp) && (mp.Branch? ==> 1 <= i)
    requires i <= Keys(mp) && (forall j :: (if mp.Leaf? then 0 else 1) <= j < i ==> KeyAt(mp, j) < k)
    requires (i < Keys(mp) ==> KeyAt(mp, i) >= k)
    ensures IsSlot(mp, k, i) && (HasKeyAt(mp, k, i) <==> i < Keys(mp) && KeyAt(mp, i) == k)
  {
    match mp {
      case Leaf(es) =>
        var p := Pos(es, k);
        assert p < i ==> KeyAt(mp, p) < k;
      case Branch(cs) =>
        forall j | 1 <= j < i ensures cs[j].key.k < k { assert KeyAt(mp, j) < k; }
    }
  }

  function KeyAt(mp: Node, i: nat): int {
    match mp
    case Leaf(es) => if i < |es| then es[i].key else 0
    case Branch(cs) => if i < |cs| && cs[i].key.At? then cs[i].key.k else 0
  }

  /** A database whose tree fits the stack. */
  ghost predicate Readable(cfg: Cfg, db: Db) {
    DbOk(cfg, db) && db.depth <= CURSOR_STACK
  }

  /** A tree deeper than the stack would have 2 ** 32 leaf pages or more. */
  lemma {:induction false} DeepTreesAreLarge(cfg: Cfg, n: Node, h: nat, lo: Sep, hi: High)
    requires Shape(cfg, n, h, lo, hi) && Full(n)
    ensures Leaves(n) >= Pow2(h)
    decreases h
  {
    if h > 0 {
      var cs := n.cs;
      ChildBounds(cfg, cs, 0, h - 1, lo, hi);
      ChildBounds(cfg, cs, 1, h - 1, lo, hi);
      DeepTreesAreLarge(cfg, cs[0].node, h - 1, LoAt(cs, 0, lo), HiAt(cs, 1, hi));
      DeepTreesAreLarge(cfg, cs[1].node, h - 1, LoAt(cs, 1, lo), HiAt(cs, 2, hi));
      KidsCount(cs);
      KidsCount(cs[1..]);
    }
  }

  /** A stacked page that is not as deep as the tree is a branch page with two children or more. */
  lemma StackedBranch(cfg: Cfg, db: Db, pages: seq<Node>, ix: seq<nat>)
    requires Readable(cfg, db) && db.root != [] && Stacked(db.root[0], pages, ix)
    ensures var top := pages[|pages| - 1];
            && OnPath(db.root[0], ix[..|ix| - 1]) && Reach(db.root[0], ix[..|ix| - 1]) == top
            && |pages| <= db.depth && Full(top) && (top.Leaf? <==> |pages| == db.depth)
    ensures Searchable(pages[|pages| - 1])
  {
    StackedReach(db.root[0], pages, ix, |pages| - 1);
    var lo, hi := ReachShape(cfg, db.root[0], ix[..|ix| - 1], db.depth - 1, Blank, Top);
    ShapeSearchable(cfg, pages[|pages| - 1], db.depth - |pages|, lo, hi);
  }

  lemma ShapeSearchable(cfg: Cfg, n: Node, h: nat, lo: Sep, hi: High)
    requires Shape(cfg, n, h, lo, hi) && Full(n)
    ensures Searchable(n)
  {
    if n.Branch? {
      var cs := n.cs;
      forall i | 1 <= i < |cs| ensures cs[i].key.At? { KidsCut(cfg, cs, i, h - 1, lo, hi); }
      forall i, j | 1 <= i < j < |cs| ensures cs[i].key.k < cs[j].key.k {
        SepsApart(cfg, cs, i, j, h - 1, lo, hi);
      }
    }
  }

  lemma SepsApart(cfg: Cfg, cs: seq<Child>, i: nat, j: nat, h: nat, lo: Sep, hi: High)
    requires 1 <= i < j < |cs| && Kids(cfg, cs, h, lo, hi)
    ensures cs[i].key.At? && cs[j].key.At? && cs[i].key.k < cs[j].key.k
  {
    Segment(cfg, cs, i, j, h, lo, hi);
    KidsCut(cfg, cs, i, h, lo, hi);
    KidsCut(cfg, cs, j, h, lo, hi);
    FlatOrdered(cfg, cs[i..j], h, cs[i].key, Below(cs[j].key.k));
    var x := Flat(cs[i..j])[0].key;
    assert AtLeast(x, cs[i].key) && Under(x, Below(cs[j].key.k));
  }

  /** Following the slot of a binary search on a branch page is following the last separator <= k. */
  lemma {:induction false} SlotIsChoice(cs: seq<Child>, k: int, i: nat)
    requires |cs| >= 1 && SepsIncrease(cs) && 1 <= i <= |cs|
    requires (forall j :: 1 <= j < i ==> cs[j].key.k < k) && (i < |cs| ==> cs[i].key.k >= k)
    ensures ChildIndex(cs, k) == if i < |cs| && cs[i].key.k == k then i else i - 1
  {
    if i == 1 {
      if |cs| > 1 && cs[1].key.k == k {
        assert |cs| > 2 ==> cs[1..][1].key.k > k;
        assert ChildIndex(cs[1..], k) == 0;
      }
    } else {
      var t := cs[1..];
      assert forall j :: 0 <= j < |t| ==> t[j] == cs[j + 1];
      SlotIsChoice(t, k, i - 1);
    }
  }

  /** The items es are those of s from position b on. */
  ghost predicate SitAt(s: seq<Item>, b: nat, es: seq<Item>) {
    b + |es| <= |s| && forall i :: 0 <= i < |es| ==> s[b + i] == es[i]
  }

  /** What mdb_cursor_set can tell from the page it is on. */
  datatype Decision = Hit | Slot | Miss | Away

  lemma KeysLe(es: seq<Item>, a: nat, b: nat)
    requires Increasing(es) && a <= b < |es|
    ensures es[a].key <= es[b].key
  {
  }

  lemma PosIs(es: seq<Item>, k: int, i: nat)
    requires Increasing(es) && i <= |es| && (i < |es| ==> k <= es[i].key) && (i > 0 ==> es[i - 1].key < k)
    ensures Pos(es, k) == i
  {
    var p := Pos(es, k);
    hide Pos;
    if i > 0 { KeysLe(es, if p < i then p else i - 1, i - 1); }
  }

  class Cursor {
    const db: Db
    ghost const cfg: Cfg
    const pg: array<Node>
    const ki: array<nat>
    var snum: nat
    var initialized: bool
    var eof: bool

    /** mdb_cursor_init. */
    constructor (db: Db, ghost cfg: Cfg)
      requires Readable(cfg, db)
      ensures Valid() && !initialized && this.db == db && this.cfg == cfg && fresh(pg) && fresh(ki)
    {
      this.db, this.cfg := db, cfg;
      pg, ki := new Node[CURSOR_STACK](_ => Leaf([])), new nat[CURSOR_STACK];
      snum, initialized, eof := 0, false, false;
    }

    /** The stack, and the path to its top page. */
    ghost predicate OnStack()
      reads this, pg, ki
    {
      && pg.Length == ki.Length == CURSOR_STACK && 1 <= snum <= CURSOR_STACK
      && Readable(cfg, db) && db.root != []
      && Stacked(db.root[0], pg[..snum], ki[..snum])
    }

    ghost function Path(): seq<nat>
      requires 1 <= snum <= ki.Length
      reads this, ki
    {
      ki[..snum - 1]
    }

    /** Push the child at index i of the top page. */
    method PushChild(i: nat)
      requires OnStack() && pg[snum - 1].Branch? && i == ki[snum - 1] < |pg[snum - 1].cs|
      modifies this`snum, pg, ki
      ensures OnStack() && snum == old(snum) + 1 && Path() == old(Path()) + [i] && ki[snum - 1] == 0
      ensures pg[snum - 1] == old(pg[snum - 1]).cs[i].node
    {
      hide Stacked, Readable, Searchable, Reach, OnPath, Full;
      ghost var pages, ix := pg[..snum], ki[..snum];
      StackedBranch(cfg, db, pages, ix);
      DepthFits();
      var mp := pg[snum - 1].cs[i].node;
      pg[snum], ki[snum] := mp, 0;
      snum := snum + 1;
      assert pg[..snum] == pages + [mp] && ki[..snum] == ix + [0];
      StackedPush(db.root[0], pages, ix);
    }

    lemma DepthFits()
      requires Readable(cfg, db)
      ensures db.depth <= CURSOR_STACK
    {
    }

    /** The index into the top page is not part of the path. */
    method SetIndex(i: nat)
      requires OnStack()
      modifies ki
      ensures OnStack() && Path() == old(Path()) && ki[..] == old(ki[..])[snum - 1 := i] && ki[snum - 1] == i
    {
      ki[snum - 1] := i;
    }

    /** mdb_cursor_sibling: to the neighbour page on the same level; a failed move leaves the stack as it was. */
    method Sibling(right: bool) returns (ok: bool)
      requires OnStack()
      modifies this`snum, pg, ki
      ensures OnStack() && snum == old(snum)
      ensures ok <==> Neighbour(db.root[0], old(Path()), right).To?
      ensures ok ==> To(Path()) == Neighbour(db.root[0], old(Path()), right)
      ensures ok ==> ki[snum - 1] == if right then 0 else Keys(pg[snum - 1]) - 1
      ensures ok ==> ki[snum - 1] < Keys(pg[snum - 1])
      ensures !ok ==> pg[..] == old(pg[..]) && ki[..] == old(ki[..])
      decreases snum, 0
    {
      hide Stacked, Readable, Neighbour, Reach, Beside, Searchable, Full, OnPath;
      if snum < 2 {
        RootAlone(right);
        return false;
      }
      TopPage();
      Parent(right);
      snum := snum - 1;
      ok := StepOrClimb(right);
      if ok {
        Enter(right);
      } else {
        snum := snum + 1;
      }
    }

    /** On the parent: one index on, or at its end the parent's own sibling. */
    method StepOrClimb(right: bool) returns (ok: bool)
      requires OnStack() && snum < db.depth && ki[snum - 1] < Keys(pg[snum - 1])
      modifies this`snum, pg, ki
      ensures OnStack() && snum == old(snum)
      ensures ok <==> Beside(db.root[0], old(Path()), old(ki[snum - 1]), right).To?
      ensures ok ==>
        ki[snum - 1] < Keys(pg[snum - 1]) &&
        To(Path() + [ki[snum - 1]]) == Beside(db.root[0], old(Path()), old(ki[snum - 1]), right)
      ensures !ok ==> pg[..] == old(pg[..]) && ki[..] == old(ki[..])
      decreases snum, 1
    {
      hide Stacked, Readable, Neighbour, Reach, Searchable, Full, OnPath;
      TopPage();
      var i := ki[snum - 1];
      if if right then i + 1 >= Keys(pg[snum - 1]) else i == 0 {
        ok := Sibling(right);
        TopPage();
      } else {
        SetIndex(if right then i + 1 else i - 1);
        ok := true;
      }
    }

    /** Push the current child, at its first or last index. */
    method Enter(first: bool)
      requires OnStack() && snum < db.depth && ki[snum - 1] < Keys(pg[snum - 1])
      modifies this`snum, pg, ki
      ensures OnStack() && snum == old(snum) + 1 && Path() == old(Path()) + [old(ki[snum - 1])]
      ensures ki[snum - 1] == (if first then 0 else Keys(pg[snum - 1]) - 1) && ki[snum - 1] < Keys(pg[snum - 1])
    {
      hide Stacked, Readable, Reach, Searchable, Full, OnPath;
      TopPage();
      PushChild(ki[snum - 1]);
      TopPage();
      if !first {
        SetIndex(Keys(pg[snum - 1]) - 1);
      }
    }

    lemma RootOnTop()
      requires OnStack() && snum == 1
      ensures Path() == [] && pg[0] == db.root[0]
    {
    }

    lemma RootAlone(right: bool)
      requires OnStack() && snum == 1
      ensures Neighbour(db.root[0], Path(), right).NoMove?
    {
      assert Path() == [];
    }

    lemma TopPage()
      requires OnStack()
      ensures Reach(db.root[0], Path()) == pg[snum - 1] && snum <= db.depth && Full(pg[snum - 1])
      ensures (pg[snum - 1].Leaf? <==> snum == db.depth)
      ensures Keys(pg[snum - 1]) > 0 && Searchable(pg[snum - 1]) && OnPath(db.root[0], Path())
    {
      StackedBranch(cfg, db, pg[..snum], ki[..snum]);
      assert ki[..snum][..snum - 1] == Path();
    }

    /** The stack without its top page. */
    lemma Parent(right: bool)
      requires OnStack() && snum >= 2
      ensures Stacked(db.root[0], pg[..snum - 1], ki[..snum - 1])
      ensures pg[snum - 2].Branch? && ki[snum - 2] < |pg[snum - 2].cs|
      ensures var q, i := ki[..snum - 2], ki[snum - 2];
              && pg[snum - 2] == Reach(db.root[0], q) && Path() == q + [i]
              && Neighbour(db.root[0], Path(), right) == Beside(db.root[0], q, i, right)
    {
      var pages, ix := pg[..snum], ki[..snum];
      StackedReach(db.root[0], pages, ix, snum - 2);
      assert ix[..snum - 2] == ki[..snum - 2];
      assert pages[snum - 2].Branch?;
      StackedPop(db.root[0], pages, ix, snum - 1);
      assert pages[..snum - 1] == pg[..snum - 1] && ix[..snum - 1] == ki[..snum - 1];
      hide Stacked, Readable, Neighbour, Reach, Beside, Keys;
      assert Path() == ki[..snum - 2] + [ki[snum - 2]];
      NeighbourSnoc(db.root[0], ki[..snum - 2], ki[snum - 2], right);
    }
  
    /** On a leaf, at an item or just after the last one. */
    ghost predicate Positioned()
      reads this, pg, ki
    {
      OnStack() && snum == db.depth && ki[snum - 1] <= Keys(pg[snum - 1])
    }

    ghost predicate Valid()
      reads this, pg, ki
    {
      && pg.Length == ki.Length == CURSOR_STACK && Readable(cfg, db)
      && (initialized ==> Positioned())
      && (eof ==> initialized && RightEdge(db.root[0], Path()))
    }

    /** Number of items before the position. */
    ghost function Rank(): nat
      requires Positioned()
      reads this, pg, ki
    {
      Before(db.root[0], Path()) + ki[snum - 1]
    }

    /** The child to follow from a branch page. */
    method ChooseIndex(mp: Node, t: Target) returns (i: nat)
      requires mp.Branch? && Searchable(mp)
      ensures i == Choose(mp.cs, t) < |mp.cs|
    {
      i := 0;
      match t {
        case Leftmost =>
        case Rightmost => i := Keys(mp) - 1;
        case ByKey(k) =>
          var exact;
          i, exact := NodeSearch(mp, k);
          SearchChoice(mp.cs, k, i);
          if !exact { i := i - 1; }
      }
    }

    method Follow(i: nat, t: Target)
      requires OnStack() && pg[snum - 1].Branch? && i == Choose(pg[snum - 1].cs, t) < |pg[snum - 1].cs|
      modifies this`snum, pg, ki
      ensures OnStack() && snum == old(snum) + 1
      ensures Path() + Descend(pg[snum - 1], t) == old(Path() + Descend(pg[snum - 1], t))
    {
      hide Stacked, Readable, Reach, Full, OnPath, SepsIncrease, Before;
      ghost var mp, p := pg[snum - 1], Path();
      DescendStep(mp.cs, t);
      SetIndex(i);
      PushChild(i);
      assert p + ([i] + Descend(pg[snum - 1], t)) == p + [i] + Descend(pg[snum - 1], t);
    }

    /** mdb_page_search_root. */
    method PageSearchRoot(t: Target)
      requires OnStack() && snum == 1
      modifies this`snum, this`initialized, this`eof, pg, ki
      ensures OnStack() && snum == db.depth && Path() == Descend(db.root[0], t) && initialized && !eof
    {
      hide Stacked, Readable, Reach, Full, OnPath, SepsIncrease, Before;
      TopPage();
      RootOnTop();
      assert [] + Descend(db.root[0], t) == Descend(db.root[0], t);
      while pg[snum - 1].Branch?
        invariant OnStack() && Path() + Descend(pg[snum - 1], t) == Descend(db.root[0], t)
        invariant snum <= db.depth && Searchable(pg[snum - 1]) && (pg[snum - 1].Leaf? ==> snum == db.depth)
        invariant Keys(pg[snum - 1]) > 0
        decreases db.depth - snum
      {
        var i := ChooseIndex(pg[snum - 1], t);
        Follow(i, t);
        TopPage();
      }
      assert Path() + [] == Path();
      initialized, eof := true, false;
    }
  
    /** What the position means in the whole order. */
    lemma AtLeaf()
      requires Positioned()
      ensures pg[snum - 1].Leaf? && pg[snum - 1].es != [] && Increasing(pg[snum - 1].es)
      ensures Reach(db.root[0], Path()) == pg[snum - 1] && OnPath(db.root[0], Path())
      ensures Rank() <= |DbItems(db)|
      ensures SitAt(DbItems(db), Before(db.root[0], Path()), pg[snum - 1].es)
      ensures ki[snum - 1] < Keys(pg[snum - 1]) ==>
        Rank() < |DbItems(db)| && DbItems(db)[Rank()] == pg[snum - 1].es[ki[snum - 1]]
    {
      hide Stacked, Readable, Reach, Full, OnPath, Before;
      TopPage();
      ItemsAt(db.root[0], Path());
      var b, es := Before(db.root[0], Path()), pg[snum - 1].es;
      forall i | 0 <= i < |es| ensures b + i < |DbItems(db)| && DbItems(db)[b + i] == es[i] {
        assert DbItems(db)[b..b + |es|][i] == es[i];
      }
    }

    /** The root of a readable database, as the path lemmas take it. */
    lemma Root()
      requires Readable(cfg, db) && db.root != []
      ensures Full(db.root[0]) && db.depth >= 1 && |db.root| == 1 && Shape(cfg, db.root[0], db.depth - 1, Blank, Top)
    {
    }

    /** mdb_page_search. */
    method PageSearch(t: Target) returns (ok: bool)
      requires pg.Length == ki.Length == CURSOR_STACK && Readable(cfg, db)
      modifies this`snum, this`initialized, this`eof, pg, ki
      ensures ok <==> db.root != []
      ensures ok ==> OnStack() && snum == db.depth && Path() == Descend(db.root[0], t) && initialized && !eof
      ensures !ok ==>
        snum == old(snum) && initialized == old(initialized) && eof == old(eof) &&
        pg[..] == old(pg[..]) && ki[..] == old(ki[..])
    {
      if db.root == [] {
        return false;
      }
      pg[0] := db.root[0];
      snum := 1;
      PageSearchRoot(t);
      ok := true;
    }

    /** mdb_cursor_first. */
    method First() returns (ok: bool, item: Item)
      requires Valid()
      modifies this`snum, this`initialized, this`eof, pg, ki
      ensures Valid() && (ok <==> db.root != [])
      ensures ok ==> initialized && !eof && Rank() == 0 && DbItems(db) != [] && item == DbItems(db)[0]
      ensures ok ==> ki[snum - 1] < Keys(pg[snum - 1])
    {
      hide Stacked, Readable, Reach, Full, OnPath, Before, Shape, Descend, RightEdge, SitAt, Increasing, Searchable,
           Neighbour;
      item := Item(0, [], false);
      if !initialized || snum - 1 > 0 {
        ok := PageSearch(Leftmost);
        if !ok { return; }
        Root();
        DescendReaches(cfg, db.root[0], Leftmost, db.depth - 1, Blank, Top);
      } else {
        RootOnTop();
      }
      ok := true;
      initialized, eof := true, false;
      SetIndex(0);
      BeforeRoot();
      AtLeaf();
      item := pg[snum - 1].es[0];
    }

    lemma BeforeRoot()
      ensures forall n: Node :: Before(n, []) == 0
    {
    }

    /** A leaf on the right edge is where the items end. */
    lemma Edge()
      requires Positioned()
      ensures RightEdge(db.root[0], Path()) <==> Before(db.root[0], Path()) + |Items(pg[snum - 1])| == |DbItems(db)|
    {
      AtLeaf();
      Root();
      RightEdgeIsEnd(cfg, db.root[0], Path(), db.depth - 1, Blank, Top);
    }

    /** mdb_cursor_last; at the end of file the current page is known to be the last one. */
    method Last() returns (ok: bool, item: Item)
      requires Valid()
      modifies this`snum, this`initialized, this`eof, pg, ki
      ensures Valid() && (ok <==> db.root != [])
      ensures ok ==>
        initialized && eof && DbItems(db) != [] && Rank() == |DbItems(db)| - 1 &&
        item == DbItems(db)[|DbItems(db)| - 1]
    {
      hide Stacked, Readable, Reach, Full, OnPath, Before, Shape, Descend, RightEdge, SitAt, Increasing, Searchable,
           Neighbour;
      item := Item(0, [], false);
      if !eof {
        if !initialized || snum - 1 > 0 {
          ok := PageSearch(Rightmost);
          if !ok { return; }
          Root();
          DescendReaches(cfg, db.root[0], Rightmost, db.depth - 1, Blank, Top);
        } else {
          RootOnTop();
          RootEnds();
        }
      }
      ok := true;
      TopPage();
      SetIndex(Keys(pg[snum - 1]) - 1);
      AtLeaf();
      Edge();
      initialized, eof := true, true;
      item := pg[snum - 1].es[ki[snum - 1]];
    }

    lemma RootEnds()
      requires OnStack() && snum == 1
      ensures RightEdge(db.root[0], Path())
    {
    }

    /** Rank of the item that next returns: the following one, or the one at the position when it is behind its page. */
    ghost function NextRank(): nat
      requires Positioned()
      reads this, pg, ki
    {
      if ki[snum - 1] < Keys(pg[snum - 1]) then Rank() + 1 else Rank()
    }

    /** mdb_cursor_next. */
    method Next() returns (ok: bool, item: Item)
      requires Valid() && initialized
      modifies this`snum, this`eof, pg, ki
      ensures Valid()
      ensures ok <==> !old(eof) && old(NextRank()) < |DbItems(db)|
      ensures ok ==>
        Rank() == old(NextRank()) && item == DbItems(db)[Rank()] && ki[snum - 1] < Keys(pg[snum - 1]) &&
        !eof
      ensures !ok ==> eof && snum == old(snum) && pg[..] == old(pg[..]) && ki[..] == old(ki[..])
    {
      hide Stacked, Readable, Reach, Full, OnPath, Before, Shape, RightEdge, Neighbour, SitAt, Increasing, Searchable;
      item := Item(0, [], false);
      if eof {
        return false, item;
      }
      AtLeaf();
      ok := true;
      if ki[snum - 1] + 1 >= Keys(pg[snum - 1]) {
        Root();
        Edge();
        RightNeighbour(cfg, db.root[0], Path(), db.depth - 1, Blank, Top);
        ok := Sibling(true);
        if !ok {
          eof := true;
          return;
        }
      } else {
        SetIndex(ki[snum - 1] + 1);
      }
      AtLeaf();
      item := pg[snum - 1].es[ki[snum - 1]];
    }

    /** Reading on with MDB_NEXT until not found, as mdb_audit does, gives every item once, in order. */
    method ReadAll() returns (items: seq<Item>)
      requires Valid() && !initialized
      modifies this`snum, this`initialized, this`eof, pg, ki
      ensures items == DbItems(db) && Increasing(items)
    {
      hide Stacked, Readable, Reach, Full, OnPath, Before, Shape, RightEdge, Increasing;
      items := [];
      var ok, item := First();
      while ok
        invariant Valid() && (ok ==> initialized && !eof && ki[snum - 1] < Keys(pg[snum - 1]))
        invariant ok ==> Rank() == |items| < |DbItems(db)| && item == DbItems(db)[|items|]
        invariant |items| <= |DbItems(db)| && items == DbItems(db)[..|items|]
        invariant !ok ==> |items| == |DbItems(db)|
        decreases |DbItems(db)| - |items|, ok
      {
        items := items + [item];
        ok, item := Next();
      }
      AllIncreasing();
    }

    lemma AllIncreasing()
      requires Readable(cfg, db)
      ensures Increasing(DbItems(db))
    {
      if db.root != [] { ItemsOrdered(cfg, db.root[0], db.depth - 1, Blank, Top); }
    }

    /** mdb_cursor_prev. */
    method Prev() returns (ok: bool, item: Item)
      requires Valid() && initialized
      modifies this`snum, this`eof, pg, ki
      ensures Valid()
      ensures ok <==> old(Rank()) > 0
      ensures ok ==>
        Rank() == old(Rank()) - 1 < |DbItems(db)| && item == DbItems(db)[Rank()] &&
        ki[snum - 1] < Keys(pg[snum - 1]) && !eof
      ensures !ok ==> snum == old(snum) && pg[..] == old(pg[..]) && ki[..] == old(ki[..]) && eof == old(eof)
    {
      hide Stacked, Readable, Reach, Full, OnPath, Before, Shape, RightEdge, Neighbour, SitAt, Increasing, Searchable;
      item := Item(0, [], false);
      AtLeaf();
      ok := true;
      if ki[snum - 1] == 0 {
        Root();
        LeftNeighbour(cfg, db.root[0], Path(), db.depth - 1, Blank, Top);
        ok := Sibling(false);
        if !ok { return; }
        SetIndex(Keys(pg[snum - 1]) - 1);
      } else {
        SetIndex(ki[snum - 1] - 1);
      }
      eof := false;
      AtLeaf();
      item := pg[snum - 1].es[ki[snum - 1]];
    }
  
    /** Does every stacked parent point at its last child? */
    method NoRightSiblings() returns (edge: bool)
      requires OnStack()
      ensures edge <==> RightEdge(db.root[0], Path())
    {
      var i := 0;
      while i < snum - 1
        invariant i <= snum - 1
        invariant forall t :: 0 <= t < i ==> ki[..snum][t] == Keys(pg[..snum][t]) - 1
      {
        if ki[i] < Keys(pg[i]) - 1 {
          EdgeByPages(db.root[0], pg[..snum], ki[..snum]);
          assert ki[..snum][..snum - 1] == Path();
          assert ki[..snum][i] != Keys(pg[..snum][i]) - 1;
          return false;
        }
        i := i + 1;
      }
      EdgeByPages(db.root[0], pg[..snum], ki[..snum]);
      assert ki[..snum][..snum - 1] == Path();
      return true;
    }

    /** The first shortcuts of mdb_cursor_set: is k between the first and the last key of the page? */
    method OnThisPage(k: int) returns (d: Decision)
      requires Positioned()
      modifies ki
      ensures Positioned() && Path() == old(Path()) && !d.Miss?
      ensures d.Away? ==> ki[..] == old(ki[..])
      ensures d.Away? ==> var es := Items(pg[snum - 1]); es != [] && (k < es[0].key || es[|es| - 1].key < k)
      ensures !d.Away? ==> Path() == Descend(db.root[0], ByKey(k))
      ensures d.Hit? ==> ki[snum - 1] == Pos(Items(pg[snum - 1]), k) && HasKeyAt(pg[snum - 1], k, ki[snum - 1])
    {
      hide Stacked, Readable, Reach, Full, OnPath, Before, Shape, RightEdge, Descend, Increasing, SitAt, Searchable,
           Pos;
      AtLeaf();
      var es := pg[snum - 1].es;
      var n := |es|;
      KeysLe(es, 0, n - 1);
      d := Away;
      if k == es[0].key {
        KeyPos(es, k, 0);
        SetIndex(0);
        d := Hit;
      } else if k > es[0].key && n > 1 {
        if k == es[n - 1].key {
          KeyPos(es, k, n - 1);
          SetIndex(n - 1);
          d := Hit;
        } else if k < es[n - 1].key {
          d := Slot;
          if ki[snum - 1] < n && k == es[ki[snum - 1]].key {
            KeyPos(es, k, ki[snum - 1]);
            d := Hit;
          }
        }
      }
      if !d.Away? { Belongs(k); }
    }

    /** The shortcuts of mdb_cursor_set: is the current page the right one, and is that all? */
    method Stay(k: int, exact: bool) returns (d: Decision)
      requires Positioned()
      modifies ki
      ensures Positioned() && Path() == old(Path())
      ensures d.Away? ==> ki[..] == old(ki[..])
      ensures !d.Away? ==> Path() == Descend(db.root[0], ByKey(k))
      ensures d.Hit? ==> ki[snum - 1] == Pos(Items(pg[snum - 1]), k) < Keys(pg[snum - 1]) && (exact ==>
        HasKeyAt(pg[snum - 1], k, ki[snum - 1]))
      ensures d.Miss? ==> ki[snum - 1] == Pos(Items(pg[snum - 1]), k) && !HasKeyAt(pg[snum - 1], k, ki[snum - 1])
      ensures d.Miss? && !exact ==> ki[snum - 1] == Keys(pg[snum - 1]) && RightEdge(db.root[0], Path())
    {
      hide Stacked, Readable, Reach, Full, OnPath, Before, Shape, RightEdge, Descend, Increasing, SitAt, Searchable,
           Pos;
      d := OnThisPage(k);
      if d.Away? {
        d := NoOtherPage(k, exact);
      } else {
        AtLeaf();
      }
    }

    /** The last shortcuts: nothing is further right, or the root is the only page. */
    method NoOtherPage(k: int, exact: bool) returns (d: Decision)
      requires Positioned()
      requires var es := Items(pg[snum - 1]); es != [] && (k < es[0].key || es[|es| - 1].key < k)
      modifies ki
      ensures Positioned() && Path() == old(Path()) && !d.Slot?
      ensures d.Away? ==> ki[..] == old(ki[..])
      ensures !d.Away? ==>
        Path() == Descend(db.root[0], ByKey(k)) && ki[snum - 1] == Pos(Items(pg[snum - 1]), k) &&
        !HasKeyAt(pg[snum - 1], k, ki[snum - 1])
      ensures d.Hit? ==> !exact && Pos(Items(pg[snum - 1]), k) < Keys(pg[snum - 1])
      ensures d.Miss? && !exact ==> ki[snum - 1] == Keys(pg[snum - 1]) && RightEdge(db.root[0], Path())
    {
      hide Stacked, Readable, Reach, Full, OnPath, Before, Shape, RightEdge, Descend, Increasing, SitAt, Searchable,
           Pos;
      AtLeaf();
      var es := pg[snum - 1].es;
      KeysLe(es, 0, |es| - 1);
      d := Away;
      if k > es[0].key {
        var edge := NoRightSiblings();
        if edge {
          Belongs(k);
          PosIs(es, k, |es|);
          SetIndex(|es|);
          d := Miss;
        }
      }
      if d.Away? && snum - 1 == 0 {
        RootBelongs(k);
        PosIs(es, k, 0);
        SetIndex(0);
        d := if exact then Miss else Hit;
      }
    }

    /** A key in the leaf's range, or behind all items on the right edge, is searched to this leaf. */
    lemma Belongs(k: int)
      requires Positioned() && pg[snum - 1].Leaf? && pg[snum - 1].es != [] && Increasing(pg[snum - 1].es)
      requires var es := pg[snum - 1].es; es[0].key <= k && (k <= es[|es| - 1].key || RightEdge(db.root[0], Path()))
      ensures Path() == Descend(db.root[0], ByKey(k))
    {
      hide Stacked, Readable, Reach, Full, OnPath, Before, Shape, RightEdge, Descend;
      AtLeaf();
      Root();
      StaysOnLeaf(cfg, db.root[0], Path(), k, db.depth - 1, Blank, Top);
    }

    lemma RootBelongs(k: int)
      requires Positioned() && snum == 1
      ensures Path() == Descend(db.root[0], ByKey(k)) && RightEdge(db.root[0], Path())
    {
      AtLeaf();
    }

    /** The rest of mdb_cursor_set on the leaf for the key. */
    method SetOnLeaf(k: int, exact: bool) returns (found: bool)
      requires pg.Length == ki.Length == CURSOR_STACK && OnStack() && snum == db.depth
      requires Path() == Descend(db.root[0], ByKey(k))
      modifies this`snum, pg, ki
      ensures Positioned()
      ensures found ==> Rank() == Pos(DbItems(db), k) && ki[snum - 1] < Keys(pg[snum - 1])
      ensures found <==> if exact then Present(DbItems(db), k) else Pos(DbItems(db), k) < |DbItems(db)|
      ensures exact || !found ==> Fresh(k)
      ensures !exact && found ==> FreshOrNext(k)
      ensures !exact && !found ==> RightEdge(db.root[0], Path())
    {
      hide Stacked, Readable, Reach, Full, OnPath, Before, Shape, RightEdge, Descend, Increasing, SitAt, Searchable,
           Neighbour, Present;
      TopPage();
      var i, e := NodeSearch(pg[snum - 1], k);
      SetIndex(i);
      AtLeaf();
      SlotRank(k);
      if exact && !e {
        return false;
      }
      found := true;
      if i >= Keys(pg[snum - 1]) {
        Root();
        Edge();
        RightNeighbour(cfg, db.root[0], Path(), db.depth - 1, Blank, Top);
        found := Sibling(true);
        if found { AtLeaf(); }
      }
    }

    /** The cursor is where a fresh search for k puts it: its leaf and the insertion slot. */
    ghost predicate Fresh(k: int)
      requires Positioned()
      reads this, pg, ki
    {
      Path() == Descend(db.root[0], ByKey(k)) && ki[snum - 1] == Pos(Items(pg[snum - 1]), k)
    }

    /** Or, when the slot is behind its leaf, on the first item of the next leaf. */
    ghost predicate FreshOrNext(k: int)
      requires Positioned()
      reads this, pg, ki
    {
      var p := Descend(db.root[0], ByKey(k));
      if Pos(Items(Reach(db.root[0], p)), k) < Keys(Reach(db.root[0], p)) then Fresh(k)
      else ki[snum - 1] == 0 && To(Path()) == Neighbour(db.root[0], p, true)
    }

    /** mdb_cursor_set, for the exact key or, as a range search, for the first key >= k. Whether a shortcut is taken
        or not, entry, outcome and insertion slot are those of a fresh search from the root. */
    method Set(k: int, exact: bool) returns (found: bool, item: Item)
      requires Valid()
      modifies this`snum, this`initialized, this`eof, pg, ki
      ensures Valid() && (initialized <==> db.root != [])
      ensures found <==> if exact then Present(DbItems(db), k) else Pos(DbItems(db), k) < |DbItems(db)|
      ensures found ==>
        !eof && Rank() == Pos(DbItems(db), k) < |DbItems(db)| && item == DbItems(db)[Rank()] &&
        ki[snum - 1] < Keys(pg[snum - 1])
      ensures initialized && (exact || !found) ==> Fresh(k)
      ensures initialized && !exact && found ==> FreshOrNext(k)
      ensures !found && eof ==> old(eof)
    {
      hide Stacked, Readable, Reach, Full, OnPath, Before, Shape, RightEdge, Descend, Increasing, SitAt, Searchable,
           Neighbour, Present, Pos;
      item := Item(0, [], false);
      var d := Away;
      if initialized {
        d := Stay(k, exact);
      }
      if d.Away? {
        var ok := PageSearch(ByKey(k));
        if !ok {
          EmptyDb(k);
          return false, item;
        }
        d := Slot;
      }
      found := Settle(k, exact, d);
      if found {
        initialized, eof := true, false;
        AtLeaf();
        item := pg[snum - 1].es[ki[snum - 1]];
      }
    }

    /** On the leaf for k: search it, or take the shortcut's answer. */
    method Settle(k: int, exact: bool, d: Decision) returns (found: bool)
      requires OnStack() && snum == db.depth && Path() == Descend(db.root[0], ByKey(k)) && !d.Away?
      requires !d.Slot? ==> Positioned() && ki[snum - 1] == Pos(Items(pg[snum - 1]), k)
      requires d.Hit? ==> ki[snum - 1] < Keys(pg[snum - 1]) && (exact ==> HasKeyAt(pg[snum - 1], k, ki[snum - 1]))
      requires d.Miss? ==> !HasKeyAt(pg[snum - 1], k, ki[snum - 1]) && (!exact ==>
        ki[snum - 1] == Keys(pg[snum - 1]) && RightEdge(db.root[0], Path()))
      modifies this`snum, pg, ki
      ensures Positioned()
      ensures found ==> Rank() == Pos(DbItems(db), k) && ki[snum - 1] < Keys(pg[snum - 1])
      ensures found <==> if exact then Present(DbItems(db), k) else Pos(DbItems(db), k) < |DbItems(db)|
      ensures exact || !found ==> Fresh(k)
      ensures !exact && found ==> FreshOrNext(k)
    {
      hide Stacked, Readable, Reach, Full, OnPath, Before, Shape, RightEdge, Descend, Increasing, SitAt, Searchable,
           Neighbour, Present, Pos;
      if d.Slot? {
        found := SetOnLeaf(k, exact);
      } else {
        found := d.Hit?;
        HitOrMiss(k, exact, found);
      }
    }

    lemma EmptyDb(k: int)
      requires db.root == []
      ensures !Present(DbItems(db), k) && Pos(DbItems(db), k) == |DbItems(db)| == 0
    {
    }

    /** A shortcut's answer is the whole database's answer. */
    lemma HitOrMiss(k: int, exact: bool, found: bool)
      requires Positioned() && Fresh(k)
      requires found ==> ki[snum - 1] < Keys(pg[snum - 1]) && (exact ==> HasKeyAt(pg[snum - 1], k, ki[snum - 1]))
      requires !found ==> !HasKeyAt(pg[snum - 1], k, ki[snum - 1]) && (!exact ==>
        ki[snum - 1] == Keys(pg[snum - 1]) && RightEdge(db.root[0], Path()))
      ensures Rank() == Pos(DbItems(db), k) && (found ==> FreshOrNext(k))
      ensures found <==> if exact then Present(DbItems(db), k) else Pos(DbItems(db), k) < |DbItems(db)|
    {
      hide Stacked, Readable, Reach, Full, OnPath, Before, Shape, RightEdge, Descend, Increasing, SitAt, Searchable,
           Neighbour, Present, Pos;
      SlotRank(k);
      AtLeaf();
      Edge();
    }

    lemma SlotRank(k: int)
      requires Positioned() && Fresh(k)
      ensures Rank() == Pos(DbItems(db), k)
      ensures HasKeyAt(pg[snum - 1], k, ki[snum - 1]) <==> Present(DbItems(db), k)
    {
      hide Stacked, Readable, Reach, Full, OnPath, Before, Shape, RightEdge, Descend, Increasing, SitAt, Searchable,
           Neighbour, Present, Pos;
      Root();
      TopPage();
      AtLeaf();
      SearchRank(cfg, db.root[0], k, db.depth - 1, Blank, Top);
      SearchPresent(cfg, db.root[0], k, db.depth - 1, Blank, Top);
      PosPresent(pg[snum - 1].es, k);
    }
  }

  lemma KeyPos(es: seq<Item>, k: int, i: nat)
    requires Increasing(es) && i < |es| && es[i].key == k
    ensures Pos(es, k) == i
  {
    hide Pos;
    if i > 0 { assert es[i - 1].key < es[i].key; }
    PosIs(es, k, i);
  }

  lemma {:induction false} EdgeByPages(root: Node, pages: seq<Node>, ix: seq<nat>)
    requires Stacked(root, pages, ix)
    ensures RightEdge(root, ix[..|ix| - 1]) <==> forall t :: 0 <= t < |pages| - 1 ==> ix[t] == Keys(pages[t]) - 1
    decreases |pages|
  {
    if |pages| > 1 {
      var ps, js := pages[1..], ix[1..];
      assert ps[0] == root.cs[ix[0]].node;
      assert Stacked(root.cs[ix[0]].node, ps, js);
      EdgeByPages(root.cs[ix[0]].node, ps, js);
      assert ix[..|ix| - 1][1..] == js[..|js| - 1];
      assert forall t :: 0 <= t < |ps| ==> ps[t] == pages[t + 1] && js[t] == ix[t + 1];
      if forall t :: 0 <= t < |ps| - 1 ==> js[t] == Keys(ps[t]) - 1 {
        forall t | 1 <= t < |pages| - 1 ensures ix[t] == Keys(pages[t]) - 1 { assert js[t - 1] == Keys(ps[t - 1]) - 1; }
      }
    }
  }

  lemma SearchChoice(cs: seq<Child>, k: int, i: nat)
    requires Searchable(Branch(cs)) && IsSlot(Branch(cs), k, i)
    ensures ChildIndex(cs, k) == if HasKeyAt(Branch(cs), k, i) then i else i - 1
  {
    SlotIsChoice(cs, k, i);
  }
}
