/** mdb_del: node removal, then borrowing, merging and root collapse up the tree; refines removal from an ordered map.
    */
module BTreeDel {
  import opened Seqs
  import opened Split
  import opened BTree
  import opened BTreePut

  function MinKeys(n: Node): nat {
    if n.Leaf? then 1 else 2
  }

  /** PAGEFILL: used bytes in thousandths of the page. */
  function Fill(cfg: Cfg, n: Node): nat
    requires cfg.pmax > 0
  {
    1000 * Used(cfg, n) / cfg.pmax
  }

  /** mdb_page_search_lowest: first key of the leftmost leaf. */
  function Lowest(n: Node): int {
    match n
    case Leaf(es) => if es == [] then 0 else es[0].key
    case Branch(cs) => if cs == [] then 0 else ChildLowest(cs[0])
  }

  function ChildLowest(c: Child): int {
    Lowest(c.node)
  }

  /** A branch page's nodes with the blank first key replaced by the lowest key below it. */
  function Unblanked(cs: seq<Child>): seq<Child>
    requires cs != []
  {
    [Child(At(ChildLowest(cs[0])), cs[0].node)] + cs[1..]
  }

  function Blanked(cs: seq<Child>): seq<Child>
    requires cs != []
  {
    [Child(Blank, cs[0].node)] + cs[1..]
  }

  /** Two neighbours after the repair: one node moved and a new separator, or one page. */
  datatype PairResult = Stuck | Moved(left: Node, sep: Sep, right: Node) | Merged(n: Node)

  /** mdb_node_move from the front of the right page to the end of the left one. */
  function MoveLeft(cfg: Cfg, l: Node, r: Node): PairResult {
    match (l, r)
    case (Leaf(a), Leaf(b)) =>
      if |b| < 2 || Used(cfg, l) + LeafSize(cfg, b[0]) > cfg.pmax then Stuck
      else Moved(Leaf(a + [b[0]]), At(b[1].key), Leaf(b[1..]))
    case (Branch(a), Branch(b)) =>
      if |b| < 2 || Used(cfg, l) + BranchSize(cfg, At(ChildLowest(b[0]))) > cfg.pmax then Stuck
      else Moved(Branch(a + [Child(At(ChildLowest(b[0])), b[0].node)]), b[1].key, Branch(Blanked(b[1..])))
    case (_, _) => Stuck
  }

  /** mdb_node_move from the end of the left page to the front of the right one. */
  function MoveRight(cfg: Cfg, l: Node, r: Node): PairResult {
    match (l, r)
    case (Leaf(a), Leaf(b)) =>
      if |a| < 2 || Used(cfg, r) + LeafSize(cfg, a[|a| - 1]) > cfg.pmax then Stuck
      else Moved(Leaf(a[..|a| - 1]), At(a[|a| - 1].key), Leaf([a[|a| - 1]] + b))
    case (Branch(a), Branch(b)) =>
      if |a| < 2 || b == [] then Stuck
      else
        var x := a[|a| - 1];
        if Used(cfg, Branch(Unblanked(b))) + BranchSize(cfg, x.key) > cfg.pmax then Stuck
        else Moved(Branch(a[..|a| - 1]), x.key, Branch(Blanked([x] + Unblanked(b))))
    case (_, _) => Stuck
  }

  /** mdb_page_merge: the right page's nodes are added to the left page. */
  function Merge(cfg: Cfg, l: Node, r: Node): PairResult {
    match (l, r)
    case (Leaf(a), Leaf(b)) =>
      if Used(cfg, Leaf(a + b)) > cfg.pmax then Stuck else Merged(Leaf(a + b))
    case (Branch(a), Branch(b)) =>
      if b == [] || Used(cfg, Branch(a + Unblanked(b))) > cfg.pmax then Stuck else Merged(Branch(a + Unblanked(b)))
    case (_, _) => Stuck
  }

  /** mdb_rebalance on a page below the threshold and the neighbour it looks at. */
  function RepairPair(cfg: Cfg, l: Node, r: Node, shortIsLeft: bool): PairResult
    requires cfg.pmax > 0
  {
    var other := if shortIsLeft then r else l;
    if Fill(cfg, other) >= 250 && Keys(other) > MinKeys(other) then
      if shortIsLeft then MoveLeft(cfg, l, r) else MoveRight(cfg, l, r)
    else Merge(cfg, l, r)
  }

  /** A deletion below a page: check asks for mdb_rebalance on it; the counters say how many pages were freed. */
  datatype DelResult = NotFound | NoRoom | Done(n: Node, check: bool, leaves: nat, branches: nat)

  datatype DelKidsResult = KidsNotFound | KidsNoRoom | KidsDeleted(cs: seq<Child>, merged: bool, leaves: nat,
    branches: nat)

  /** The last child whose separator is <= k. */
  function ChildIndex(cs: seq<Child>, k: int): (i: nat)
    ensures cs != [] ==> i < |cs|
  {
    if |cs| <= 1 || !AtLeast(k, cs[1].key) then 0 else 1 + ChildIndex(cs[1..], k)
  }

  /** Children j and j + 1 after the repair. */
  function Replaced(cs: seq<Child>, j: nat, p: PairResult): seq<Child>
    requires j + 2 <= |cs| && !p.Stuck?
  {
    cs[..j] + (if p.Moved? then [Child(cs[j].key, p.left), Child(p.sep, p.right)]
      else [Child(cs[j].key, p.n)]) + cs[j + 2..]
  }

  /** Child i is now n: mdb_rebalance on it, with the right neighbour for the first child, else with the left one. */
  function Rebalance(cfg: Cfg, cs: seq<Child>, i: nat, n: Node, check: bool, leaves: nat, branches: nat): DelKidsResult
    requires cfg.pmax > 0 && i < |cs|
  {
    if !check || (Fill(cfg, n) >= 250 && Keys(n) >= MinKeys(n)) || |cs| < 2 then
      KidsDeleted(cs[i := Child(cs[i].key, n)], false, leaves, branches)
    else
      var j := if i == 0 then 0 else i - 1;
      var p := if i == 0 then RepairPair(cfg, n, cs[1].node, true) else RepairPair(cfg, cs[i - 1].node, n, false);
      if p.Stuck? then KidsNoRoom
      else
        var l, b := if p.Merged? && n.Leaf? then 1 else 0, if p.Merged? && n.Branch? then 1 else 0;
        KidsDeleted(Replaced(cs, j, p), p.Merged?, leaves + l, branches + b)
  }

  /** A parent is only checked after two of its children were merged; a longer separator must find room. */
  function DelNode(cfg: Cfg, n: Node, k: int): DelResult
    requires cfg.pmax > 0
  {
    match n
    case Leaf(es) =>
      var p := Pos(es, k);
      if p < |es| && es[p].key == k then Done(Leaf(es[..p] + es[p + 1..]), true, 0, 0) else NotFound
    case Branch(cs) =>
      if cs == [] then NotFound
      else
        match DelChild(cfg, cs[ChildIndex(cs, k)], k)
        case NotFound => NotFound
        case NoRoom => NoRoom
        case Done(n', check, leaves, branches) =>
          match Rebalance(cfg, cs, ChildIndex(cs, k), n', check, leaves, branches)
          case KidsNotFound => NotFound
          case KidsNoRoom => NoRoom
          case KidsDeleted(cs', merged, leaves', branches') =>
            if Sum(BranchSizes(cfg, cs')) > cfg.pmax then NoRoom else Done(Branch(cs'), merged, leaves', branches')
  }

  function DelChild(cfg: Cfg, c: Child, k: int): DelResult
    requires cfg.pmax > 0
  {
    DelNode(cfg, c.node, k)
  }

  datatype DbDelResult = Absent | Unmodelled | Deleted(db: Db)

  /** mdb_del on the database: the root page is emptied, collapsed into its only child, or kept. */
  function Delete(cfg: Cfg, db: Db, k: int): DbDelResult
    requires cfg.pmax > 0
  {
    if db.root == [] then Absent
    else
      match DelNode(cfg, db.root[0], k)
      case NotFound => Absent
      case NoRoom => Unmodelled
      case Done(n, check, leaves, branches) =>
        var e, l, b := Minus(db.entries, 1), Minus(db.leafPages, leaves), Minus(db.branchPages, branches);
        if !check || (Fill(cfg, n) >= 250 && Keys(n) >= MinKeys(n)) then Deleted(Db([n], e, db.depth, l, b))
        else if Keys(n) == 0 then Deleted(Db([], e, 0, 0, b))
        else if n.Branch? && Keys(n) == 1 then Deleted(Db([n.cs[0].node], e, Minus(db.depth, 1), l, Minus(b, 1)))
        else Deleted(Db([n], e, db.depth, l, b))
  }

  function Minus(a: nat, b: nat): nat {
    if a < b then 0 else a - b
  }

  // ---------------------------------------------------------------- bounds

  ghost predicate HighLe(a: High, b: High) {
    b.Below? ==> a.Below? && a.k <= b.k
  }

  ghost predicate LowLe(a: Sep, b: Sep) {
    a.At? ==> b.At? && a.k <= b.k
  }

  /** Wider bounds hold as well. */
  lemma {:induction false} WidenShape(cfg: Cfg, n: Node, h: nat, lo: Sep, hi: High, lo': Sep, hi': High)
    requires Shape(cfg, n, h, lo, hi) && LowLe(lo', lo) && HighLe(hi, hi')
    ensures Shape(cfg, n, h, lo', hi')
    decreases h, 0
  {
    match n {
      case Leaf(es) =>
        hide LeafSize;
        forall i | 0 <= i < |es| ensures AtLeast(es[i].key, lo') && Under(es[i].key, hi') {
          assert AtLeast(es[i].key, lo) && Under(es[i].key, hi);
        }
      case Branch(cs) => WidenKids(cfg, cs, h - 1, lo, hi, lo', hi');
    }
  }

  lemma {:induction false} WidenKids(cfg: Cfg, cs: seq<Child>, h: nat, lo: Sep, hi: High, lo': Sep, hi': High)
    requires Kids(cfg, cs, h, lo, hi) && LowLe(lo', lo) && HighLe(hi, hi')
    ensures Kids(cfg, cs, h, lo', hi')
    decreases h, 1, |cs|
  {
    if cs != [] {
      WidenShape(cfg, cs[0].node, h, lo, FirstHigh(cs, hi), lo', FirstHigh(cs, hi'));
      if |cs| > 1 { WidenKids(cfg, cs[1..], h, cs[1].key, hi, cs[1].key, hi'); }
    }
  }

  /** The leftmost leaf's first key is the first key of all. */
  lemma {:induction false} LowestIsFirst(cfg: Cfg, n: Node, h: nat, lo: Sep, hi: High)
    requires Shape(cfg, n, h, lo, hi) && Full(n)
    ensures Items(n) != [] && Lowest(n) == Items(n)[0].key && AtLeast(Lowest(n), lo) && Under(Lowest(n), hi)
    decreases h
  {
    ItemsOrdered(cfg, n, h, lo, hi);
    match n {
      case Leaf(es) =>
      case Branch(cs) =>
        LowestIsFirst(cfg, cs[0].node, h - 1, lo, FirstHigh(cs, hi));
        assert Items(n) == ChildItems(cs[0]) + Flat(cs[1..]);
    }
    assert AtLeast(Items(n)[0].key, lo) && Under(Items(n)[0].key, hi);
  }

  /** The lowest key is a lower bound. */
  lemma {:induction false} TightenShape(cfg: Cfg, n: Node, h: nat, lo: Sep, hi: High)
    requires Shape(cfg, n, h, lo, hi) && Full(n)
    ensures Shape(cfg, n, h, At(Lowest(n)), hi)
    decreases h, 0
  {
    match n {
      case Leaf(es) =>
        hide LeafSize;
        forall i | 0 <= i < |es| ensures AtLeast(es[i].key, At(es[0].key)) && Under(es[i].key, hi) {
          if i > 0 { assert es[0].key < es[i].key; }
          assert Under(es[i].key, hi);
        }
      case Branch(cs) =>
        TightenShape(cfg, cs[0].node, h - 1, lo, FirstHigh(cs, hi));
    }
  }

  /** Two lists of children side by side. */
  lemma {:induction false} KidsJoin(cfg: Cfg, a: seq<Child>, b: seq<Child>, h: nat, lo: Sep, hi: High)
    requires a != [] && b != [] && b[0].key.At?
    requires Kids(cfg, a, h, lo, Below(b[0].key.k)) && Kids(cfg, b, h, b[0].key, hi)
    ensures Kids(cfg, a + b, h, lo, hi)
    decreases |a|
  {
    var s := a + b;
    if |a| == 1 {
      assert s[1..] == b;
    } else {
      KidsJoin(cfg, a[1..], b, h, a[1].key, hi);
      assert s[1..] == a[1..] + b;
      assert FirstHigh(s, hi) == FirstHigh(a, Below(b[0].key.k));
    }
  }

  // ---------------------------------------------------------------- a pair of neighbours

  /** Two neighbours between lo and hi, separated by s; the short one is below the threshold, the other one is Full. */
  ghost predicate PairReady(cfg: Cfg, l: Node, s: int, r: Node, shortIsLeft: bool, h: nat, lo: Sep, hi: High) {
    && Shape(cfg, l, h, lo, Below(s)) && Shape(cfg, r, h, At(s), hi) && AtLeast(s, lo) && Under(s, hi)
    && Full(if shortIsLeft then r else l)
    && var short := if shortIsLeft then l else r;
       4 * Used(cfg, short) < cfg.pmax && (short.Branch? ==> short.cs != [])
  }

  /** The repaired pair: same items and page counts, bounds kept, both pages Full. */
  ghost predicate PairOk(cfg: Cfg, l: Node, r: Node, p: PairResult, h: nat, lo: Sep, hi: High) {
    match p
    case Stuck => false
    case Moved(l', sep, r') =>
      && sep.At? && AtLeast(sep.k, lo) && Under(sep.k, hi)
      && Full(l') && Full(r') && Shape(cfg, l', h, lo, Below(sep.k)) && Shape(cfg, r', h, sep, hi)
      && Items(l') + Items(r') == Items(l) + Items(r)
      && Leaves(l') + Leaves(r') == Leaves(l) + Leaves(r) && Branches(l') + Branches(r') == Branches(l) + Branches(r)
    case Merged(n) =>
      && Full(n) && Shape(cfg, n, h, lo, hi) && Items(n) == Items(l) + Items(r)
      && Leaves(n) + (if l.Leaf? then 1 else 0) == Leaves(l) + Leaves(r)
      && Branches(n) + (if l.Branch? then 1 else 0) == Branches(l) + Branches(r)
  }

  lemma LeafJoin(cfg: Cfg, a: seq<Item>, b: seq<Item>, s: int, lo: Sep, hi: High)
    requires LeafOk(cfg, a, lo, Below(s)) && LeafOk(cfg, b, At(s), hi) && AtLeast(s, lo) && Under(s, hi)
    ensures LeafOk(cfg, a + b, lo, hi)
  {
    hide LeafSize;
    IncreasingConcat(a, b, s) by {
      forall i | 0 <= i < |b| ensures s <= b[i].key { assert AtLeast(b[i].key, At(s)); }
      forall i | 0 <= i < |a| ensures a[i].key < s { assert Under(a[i].key, Below(s)); }
    }
    var all := a + b;
    forall i | 0 <= i < |all|
      ensures AtLeast(all[i].key, lo) && Under(all[i].key, hi) && LeafSize(cfg, all[i]) <= cfg.pmax / 2 {
      if i < |a| {
        assert all[i] == a[i] && Under(a[i].key, Below(s)) && AtLeast(a[i].key, lo);
      } else {
        assert all[i] == b[i - |a|] && AtLeast(b[i - |a|].key, At(s)) && Under(b[i - |a|].key, hi);
      }
    }
  }

  lemma LeafSizesConcat(cfg: Cfg, a: seq<Item>, b: seq<Item>)
    ensures Sum(LeafSizes(cfg, a + b)) == Sum(LeafSizes(cfg, a)) + Sum(LeafSizes(cfg, b))
  {
    hide LeafSize, Sum;
    assert LeafSizes(cfg, a + b) == LeafSizes(cfg, a) + LeafSizes(cfg, b);
    SumConcat(LeafSizes(cfg, a), LeafSizes(cfg, b));
  }

  lemma BranchSizesConcat(cfg: Cfg, a: seq<Child>, b: seq<Child>)
    ensures Sum(BranchSizes(cfg, a + b)) == Sum(BranchSizes(cfg, a)) + Sum(BranchSizes(cfg, b))
  {
    hide BranchSize, Sum;
    assert BranchSizes(cfg, a + b) == BranchSizes(cfg, a) + BranchSizes(cfg, b);
    SumConcat(BranchSizes(cfg, a), BranchSizes(cfg, b));
  }

  lemma LeafSizesSingle(cfg: Cfg, x: Item)
    ensures Sum(LeafSizes(cfg, [x])) == LeafSize(cfg, x)
  {
    assert LeafSizes(cfg, [x]) == [LeafSize(cfg, x)];
    assert Sum([LeafSize(cfg, x)]) == LeafSize(cfg, x);
  }

  lemma BranchSizesSingle(cfg: Cfg, x: Child)
    ensures Sum(BranchSizes(cfg, [x])) == BranchSize(cfg, x.key)
  {
    assert BranchSizes(cfg, [x]) == [BranchSize(cfg, x.key)];
    assert Sum([BranchSize(cfg, x.key)]) == BranchSize(cfg, x.key);
  }

  /** Joined leaves cut at sp. */
  lemma LeafCutOk(cfg: Cfg, a: seq<Item>, b: seq<Item>, s: int, sp: nat, lo: Sep, hi: High)
    requires LeafOk(cfg, a, lo, Below(s)) && LeafOk(cfg, b, At(s), hi) && AtLeast(s, lo) && Under(s, hi)
    requires 1 <= sp < |a + b|
    requires Sum(LeafSizes(cfg, (a + b)[..sp])) <= cfg.pmax && Sum(LeafSizes(cfg, (a + b)[sp..])) <= cfg.pmax
    ensures PairOk(cfg, Leaf(a), Leaf(b), Moved(Leaf((a + b)[..sp]), At((a + b)[sp].key), Leaf((a + b)[sp..])), 0, lo,
      hi)
  {
    LeafJoin(cfg, a, b, s, lo, hi);
    LeafCut(cfg, a + b, sp, lo, hi);
    hide LeafSize, LeafSizes, Sum, Increasing, Within;
    assert (a + b)[..sp] + (a + b)[sp..] == a + b;
  }

  lemma MoveLeftLeafOk(cfg: Cfg, a: seq<Item>, b: seq<Item>, s: int, lo: Sep, hi: High)
    requires PairReady(cfg, Leaf(a), s, Leaf(b), true, 0, lo, hi) && |b| > 1
    ensures PairOk(cfg, Leaf(a), Leaf(b), MoveLeft(cfg, Leaf(a), Leaf(b)), 0, lo, hi)
  {
    hide LeafSize, LeafSizes, Sum, Increasing, Within, PairOk;
    var all := a + b;
    assert all[..|a| + 1] == a + [b[0]] && all[|a| + 1..] == b[1..];
    assert b == [b[0]] + b[1..];
    LeafSizesConcat(cfg, a, [b[0]]);
    LeafSizesConcat(cfg, [b[0]], b[1..]);
    LeafSizesSingle(cfg, b[0]);
    LeafCutOk(cfg, a, b, s, |a| + 1, lo, hi);
  }

  lemma MoveRightLeafOk(cfg: Cfg, a: seq<Item>, b: seq<Item>, s: int, lo: Sep, hi: High)
    requires PairReady(cfg, Leaf(a), s, Leaf(b), false, 0, lo, hi) && |a| > 1
    ensures PairOk(cfg, Leaf(a), Leaf(b), MoveRight(cfg, Leaf(a), Leaf(b)), 0, lo, hi)
  {
    hide LeafSize, LeafSizes, Sum, Increasing, Within, PairOk;
    var all, m := a + b, |a| - 1;
    assert all[..m] == a[..m] && all[m..] == [a[m]] + b;
    assert a == a[..m] + [a[m]];
    LeafSizesConcat(cfg, [a[m]], b);
    LeafSizesConcat(cfg, a[..m], [a[m]]);
    LeafSizesSingle(cfg, a[m]);
    LeafCutOk(cfg, a, b, s, m, lo, hi);
  }

  lemma LeafHalf(cfg: Cfg, n: Node, lo: Sep, hi: High)
    requires n.Leaf? && Shape(cfg, n, 0, lo, hi) && cfg.pmax > 0 && (Fill(cfg, n) < 250 || |n.es| <= 1)
    ensures Used(cfg, n) <= cfg.pmax / 2
  {
    if |n.es| == 1 {
      LeafSizesSingle(cfg, n.es[0]);
      assert n.es == [n.es[0]];
    } else if n.es == [] {
    } else {
      FillMeans(cfg, n);
    }
  }

  /** The threshold of 250 thousandths is a quarter page. */
  lemma FillMeans(cfg: Cfg, n: Node)
    requires cfg.pmax > 0
    ensures Fill(cfg, n) >= 250 <==> 4 * Used(cfg, n) >= cfg.pmax
  {
    var u := Used(cfg, n);
    hide Used;
    var q := 1000 * u / cfg.pmax;
    DivBound(1000 * u, cfg.pmax);
    if q >= 250 {
      MulLe(250, q, cfg.pmax);
    } else {
      MulLe(q + 1, 250, cfg.pmax);
    }
  }

  lemma DivBound(x: nat, d: nat)
    requires d > 0
    ensures x / d * d <= x < (x / d + 1) * d
  {
    assert x == x / d * d + x % d;
  }

  lemma MergeLeafOk(cfg: Cfg, a: seq<Item>, b: seq<Item>, s: int, shortIsLeft: bool, lo: Sep, hi: High)
    requires PairReady(cfg, Leaf(a), s, Leaf(b), shortIsLeft, 0, lo, hi)
    requires Used(cfg, if shortIsLeft then Leaf(b) else Leaf(a)) <= cfg.pmax / 2
    ensures PairOk(cfg, Leaf(a), Leaf(b), Merge(cfg, Leaf(a), Leaf(b)), 0, lo, hi)
  {
    LeafJoin(cfg, a, b, s, lo, hi);
    hide LeafSize, LeafSizes, Sum, Increasing, Within;
    LeafSizesConcat(cfg, a, b);
  }

  /** The children of two neighbouring branch pages in one list. */
  ghost predicate Joined(cfg: Cfg, a: seq<Child>, b: seq<Child>, all: seq<Child>, h: nat, lo: Sep, hi: High) {
    && a != [] && b != [] && all == a + Unblanked(b) && all[0].key.Blank? && Kids(cfg, all, h, lo, hi)
    && Flat(all) == Flat(a) + Flat(b)
    && KidLeaves(all) == KidLeaves(a) + KidLeaves(b) && KidBranches(all) == KidBranches(a) + KidBranches(b)
  }

  lemma UnblankedKids(cfg: Cfg, b: seq<Child>, h: nat, lo: Sep, hi: High)
    requires b != [] && Kids(cfg, b, h, lo, hi)
    ensures Kids(cfg, Unblanked(b), h, At(ChildLowest(b[0])), hi)
    ensures AtLeast(ChildLowest(b[0]), lo) && Under(ChildLowest(b[0]), hi)
    ensures Flat(Unblanked(b)) == Flat(b) && KidLeaves(Unblanked(b)) == KidLeaves(b)
    ensures KidBranches(Unblanked(b)) == KidBranches(b)
  {
    var u := Unblanked(b);
    assert u[1..] == b[1..];
    TightenShape(cfg, b[0].node, h, lo, FirstHigh(b, hi));
    LowestIsFirst(cfg, b[0].node, h, lo, FirstHigh(b, hi));
    FlatOrdered(cfg, b, h, lo, hi);
    hide Shape, Items, Leaves, Branches;
  }

  lemma JoinedOk(cfg: Cfg, a: seq<Child>, b: seq<Child>, s: int, h: nat, lo: Sep, hi: High)
    requires a != [] && b != [] && a[0].key.Blank? && Kids(cfg, a, h, lo, Below(s)) && Kids(cfg, b, h, At(s), hi)
    requires AtLeast(s, lo) && Under(s, hi)
    ensures Joined(cfg, a, b, a + Unblanked(b), h, lo, hi)
  {
    hide Kids, Flat, KidLeaves, KidBranches;
    UnblankedKids(cfg, b, h, At(s), hi);
    var m := ChildLowest(b[0]);
    WidenKids(cfg, a, h, lo, Below(s), lo, Below(m));
    KidsJoin(cfg, a, Unblanked(b), h, lo, hi);
    FlatConcat(a, Unblanked(b));
  }

  /** The joined list cut at sp, leaving two children or more on each side. */
  lemma BranchCutOk(cfg: Cfg, a: seq<Child>, b: seq<Child>, all: seq<Child>, sp: nat, h: nat, lo: Sep, hi: High)
    requires h > 0 && Joined(cfg, a, b, all, h - 1, lo, hi) && 2 <= sp <= |all| - 2
    requires Sum(BranchSizes(cfg, all[..sp])) <= cfg.pmax && Sum(BranchSizes(cfg, Blanked(all[sp..]))) <= cfg.pmax
    ensures PairOk(cfg, Branch(a), Branch(b), Moved(Branch(all[..sp]), all[sp].key, Branch(Blanked(all[sp..]))), h, lo,
      hi)
  {
    hide Kids, Flat, KidLeaves, KidBranches, Sum, BranchSizes, Shape, PairOk;
    BranchParts(cfg, all, sp, h, lo, hi);
    assert Blanked(all[sp..]) == [Child(Blank, all[sp].node)] + all[sp + 1..];
    BranchesMoved(cfg, a, b, all[..sp], all[sp].key, Blanked(all[sp..]), h, lo, hi);
  }

  lemma BranchesMoved(cfg: Cfg, a: seq<Child>, b: seq<Child>, x: seq<Child>, sep: Sep, t: seq<Child>, h: nat, lo: Sep,
                      hi: High)
    requires h > 0 && sep.At? && AtLeast(sep.k, lo) && Under(sep.k, hi) && |x| >= 2 && |t| >= 2 && x[0].key.Blank?
    requires t[0].key.Blank?
    requires Kids(cfg, x, h - 1, lo, Below(sep.k)) && Kids(cfg, t, h - 1, sep, hi)
    requires Sum(BranchSizes(cfg, x)) <= cfg.pmax && Sum(BranchSizes(cfg, t)) <= cfg.pmax
    requires Flat(x) + Flat(t) == Flat(a) + Flat(b) && KidLeaves(x) + KidLeaves(t) == KidLeaves(a) + KidLeaves(b)
    requires KidBranches(x) + KidBranches(t) == KidBranches(a) + KidBranches(b)
    ensures PairOk(cfg, Branch(a), Branch(b), Moved(Branch(x), sep, Branch(t)), h, lo, hi)
  {
    hide Kids, Flat, KidLeaves, KidBranches, Sum, BranchSizes, Shape;
    BranchShape(cfg, x, h, lo, Below(sep.k));
    BranchShape(cfg, t, h, sep, hi);
  }

  lemma BranchShape(cfg: Cfg, cs: seq<Child>, h: nat, lo: Sep, hi: High)
    requires h > 0 && cs != [] && cs[0].key.Blank? && Kids(cfg, cs, h - 1, lo, hi)
    requires Sum(BranchSizes(cfg, cs)) <= cfg.pmax
    ensures Shape(cfg, Branch(cs), h, lo, hi)
  {
  }

  lemma UnblankedSize(cfg: Cfg, b: seq<Child>)
    requires b != [] && ValidCfg(cfg) && b[0].key.Blank?
    ensures Sum(BranchSizes(cfg, Unblanked(b))) <= Sum(BranchSizes(cfg, b)) + cfg.pmax / 4
    ensures Sum(BranchSizes(cfg, b[1..])) <= Sum(BranchSizes(cfg, b))
  {
    hide BranchSizes, Sum;
    var u, x := Unblanked(b), Child(At(ChildLowest(b[0])), b[0].node);
    assert b == [b[0]] + b[1..];
    BranchSizesConcat(cfg, [b[0]], b[1..]);
    BranchSizesConcat(cfg, [x], b[1..]);
    BranchSizesSingle(cfg, b[0]);
    BranchSizesSingle(cfg, x);
    KeySize(cfg, x.key);
  }

  lemma KeySize(cfg: Cfg, s: Sep)
    requires ValidCfg(cfg)
    ensures BranchSize(cfg, s) <= cfg.pmax / 4
  {
    if s.At? {
      assert Even(10 + cfg.ksize(s.k)) <= cfg.pmax / 4;
    } else {
      assert Even(10) <= 64 / 4;
    }
  }

  lemma BlankedSize(cfg: Cfg, b: seq<Child>)
    requires b != []
    ensures Sum(BranchSizes(cfg, Blanked(b))) <= Sum(BranchSizes(cfg, b))
  {
    hide BranchSizes, Sum;
    assert b == [b[0]] + b[1..];
    BranchSizesConcat(cfg, [b[0]], b[1..]);
    BranchSizesConcat(cfg, [Child(Blank, b[0].node)], b[1..]);
    BranchSizesSingle(cfg, b[0]);
    BranchSizesSingle(cfg, Child(Blank, b[0].node));
  }

  lemma ReadyBranches(cfg: Cfg, a: seq<Child>, b: seq<Child>, s: int, shortIsLeft: bool, h: nat, lo: Sep, hi: High)
    requires PairReady(cfg, Branch(a), s, Branch(b), shortIsLeft, h, lo, hi)
    ensures h > 0 && Joined(cfg, a, b, a + Unblanked(b), h - 1, lo, hi) && b[0].key.Blank?
    ensures Sum(BranchSizes(cfg, a)) <= cfg.pmax && Sum(BranchSizes(cfg, b)) <= cfg.pmax
  {
    hide Kids, Flat, KidLeaves, KidBranches, Sum, BranchSizes, Joined;
    JoinedOk(cfg, a, b, s, h - 1, lo, hi);
  }

  lemma MoveLeftSizes(cfg: Cfg, a: seq<Child>, b: seq<Child>, all: seq<Child>)
    requires ValidCfg(cfg) && |b| > 2 && b[0].key.Blank? && all == a + Unblanked(b)
    requires 4 * Sum(BranchSizes(cfg, a)) < cfg.pmax && Sum(BranchSizes(cfg, b)) <= cfg.pmax
    ensures Sum(BranchSizes(cfg, a)) + BranchSize(cfg, Unblanked(b)[0].key) <= cfg.pmax
    ensures Sum(BranchSizes(cfg, all[..|a| + 1])) <= cfg.pmax
    ensures Sum(BranchSizes(cfg, Blanked(all[|a| + 1..]))) <= cfg.pmax
  {
    hide Sum, BranchSizes, BranchSize, ValidCfg;
    var u := Unblanked(b);
    KeySize(cfg, u[0].key);
    UnblankedSize(cfg, b);
    BranchSizesConcat(cfg, a, [u[0]]);
    BranchSizesSingle(cfg, u[0]);
    BlankedSize(cfg, b[1..]);
    assert all[..|a| + 1] == a + [u[0]];
    assert all[|a| + 1..] == b[1..];
  }

  lemma MoveLeftCuts(cfg: Cfg, a: seq<Child>, b: seq<Child>, all: seq<Child>)
    requires |b| > 2 && all == a + Unblanked(b)
    requires Sum(BranchSizes(cfg, a)) + BranchSize(cfg, Unblanked(b)[0].key) <= cfg.pmax
    ensures MoveLeft(cfg, Branch(a), Branch(b)) ==
      Moved(Branch(all[..|a| + 1]), all[|a| + 1].key, Branch(Blanked(all[|a| + 1..])))
  {
    hide Sum, BranchSizes, BranchSize, Blanked;
    assert all[..|a| + 1] == a + [Unblanked(b)[0]];
    assert all[|a| + 1..] == b[1..];
  }

  lemma MoveLeftBranchOk(cfg: Cfg, a: seq<Child>, b: seq<Child>, s: int, h: nat, lo: Sep, hi: High)
    requires ValidCfg(cfg) && PairReady(cfg, Branch(a), s, Branch(b), true, h, lo, hi) && |b| > 2
    ensures PairOk(cfg, Branch(a), Branch(b), MoveLeft(cfg, Branch(a), Branch(b)), h, lo, hi)
  {
    ReadyBranches(cfg, a, b, s, true, h, lo, hi);
    hide Kids, Flat, KidLeaves, KidBranches, Sum, BranchSizes, BranchSize, PairOk, Shape, ValidCfg, Joined, MoveLeft,
         Blanked, Unblanked;
    var all := a + Unblanked(b);
    MoveLeftSizes(cfg, a, b, all);
    MoveLeftCuts(cfg, a, b, all);
    BranchCutOk(cfg, a, b, all, |a| + 1, h, lo, hi);
  }

  lemma MoveRightSizes(cfg: Cfg, a: seq<Child>, b: seq<Child>, all: seq<Child>)
    requires ValidCfg(cfg) && |a| > 2 && b != [] && b[0].key.Blank? && all == a + Unblanked(b)
    requires 4 * Sum(BranchSizes(cfg, b)) < cfg.pmax && Sum(BranchSizes(cfg, a)) <= cfg.pmax
    ensures Sum(BranchSizes(cfg, Unblanked(b))) + BranchSize(cfg, a[|a| - 1].key) <= cfg.pmax
    ensures Sum(BranchSizes(cfg, all[..|a| - 1])) <= cfg.pmax
    ensures Sum(BranchSizes(cfg, Blanked(all[|a| - 1..]))) <= cfg.pmax
  {
    hide Sum, BranchSizes, BranchSize, ValidCfg, Unblanked;
    var u, m := Unblanked(b), |a| - 1;
    KeySize(cfg, a[m].key);
    UnblankedSize(cfg, b);
    BranchSizesConcat(cfg, [a[m]], u);
    BranchSizesSingle(cfg, a[m]);
    BranchSizesConcat(cfg, a[..m], [a[m]]);
    assert a == a[..m] + [a[m]];
    assert all[..m] == a[..m] && all[m..] == [a[m]] + u;
    BlankedSize(cfg, all[m..]);
  }

  lemma MoveRightCuts(cfg: Cfg, a: seq<Child>, b: seq<Child>, all: seq<Child>)
    requires |a| > 2 && b != [] && all == a + Unblanked(b)
    requires Sum(BranchSizes(cfg, Unblanked(b))) + BranchSize(cfg, a[|a| - 1].key) <= cfg.pmax
    ensures MoveRight(cfg, Branch(a), Branch(b)) ==
      Moved(Branch(all[..|a| - 1]), all[|a| - 1].key, Branch(Blanked(all[|a| - 1..])))
  {
    hide Sum, BranchSizes, BranchSize, Blanked, Unblanked;
    var m := |a| - 1;
    assert all[..m] == a[..m] && all[m..] == [a[m]] + Unblanked(b);
  }

  lemma MoveRightBranchOk(cfg: Cfg, a: seq<Child>, b: seq<Child>, s: int, h: nat, lo: Sep, hi: High)
    requires ValidCfg(cfg) && PairReady(cfg, Branch(a), s, Branch(b), false, h, lo, hi) && |a| > 2
    ensures PairOk(cfg, Branch(a), Branch(b), MoveRight(cfg, Branch(a), Branch(b)), h, lo, hi)
  {
    ReadyBranches(cfg, a, b, s, false, h, lo, hi);
    hide Kids, Flat, KidLeaves, KidBranches, Sum, BranchSizes, BranchSize, PairOk, Shape, ValidCfg, Joined, MoveRight,
         Blanked, Unblanked;
    var all := a + Unblanked(b);
    MoveRightSizes(cfg, a, b, all);
    MoveRightCuts(cfg, a, b, all);
    BranchCutOk(cfg, a, b, all, |a| - 1, h, lo, hi);
  }

  lemma MergeBranchOk(cfg: Cfg, a: seq<Child>, b: seq<Child>, s: int, shortIsLeft: bool, h: nat, lo: Sep, hi: High)
    requires ValidCfg(cfg) && PairReady(cfg, Branch(a), s, Branch(b), shortIsLeft, h, lo, hi)
    requires Used(cfg, if shortIsLeft then Branch(b) else Branch(a)) <= cfg.pmax / 2
    ensures PairOk(cfg, Branch(a), Branch(b), Merge(cfg, Branch(a), Branch(b)), h, lo, hi)
  {
    ReadyBranches(cfg, a, b, s, shortIsLeft, h, lo, hi);
    hide Kids, Flat, KidLeaves, KidBranches, Sum, BranchSizes, BranchSize, ValidCfg;
    UnblankedSize(cfg, b);
    BranchSizesConcat(cfg, a, Unblanked(b));
  }

  /** A branch page below the threshold or with two children uses at most half a page. */
  lemma BranchHalf(cfg: Cfg, n: Node)
    requires ValidCfg(cfg) && n.Branch? && (Fill(cfg, n) < 250 || |n.cs| <= 2)
    ensures Used(cfg, n) <= cfg.pmax / 2
  {
    if |n.cs| <= 2 {
      QuarterNodes(cfg, n.cs);
      hide BranchSizes, Sum;
      SumBound(BranchSizes(cfg, n.cs), cfg.pmax / 4);
      MulLe(|n.cs|, 2, cfg.pmax / 4);
    } else {
      FillMeans(cfg, n);
    }
  }

  /** Moving a node or merging never overflows a page and leaves both neighbours, or their union, well-formed. */
  lemma RepairPairOk(cfg: Cfg, l: Node, s: int, r: Node, shortIsLeft: bool, h: nat, lo: Sep, hi: High)
    requires ValidCfg(cfg) && PairReady(cfg, l, s, r, shortIsLeft, h, lo, hi)
    ensures PairOk(cfg, l, r, RepairPair(cfg, l, r, shortIsLeft), h, lo, hi)
  {
    hide Used, Fill, Kids, PairOk, MoveLeft, MoveRight, Merge, PairReady;
    SameKind(cfg, l, s, r, shortIsLeft, h, lo, hi);
    var other := if shortIsLeft then r else l;
    if Fill(cfg, other) >= 250 && Keys(other) > MinKeys(other) {
      hide Shape;
      match (l, r) {
        case (Leaf(a), Leaf(b)) => if shortIsLeft { MoveLeftLeafOk(cfg, a, b, s, lo, hi); } else {
          MoveRightLeafOk(cfg, a, b, s, lo, hi); }
        case (Branch(a), Branch(b)) => if shortIsLeft { MoveLeftBranchOk(cfg, a, b, s, h, lo, hi); } else {
          MoveRightBranchOk(cfg, a, b, s, h, lo, hi); }
        case (_, _) =>
      }
    } else {
      match (l, r) {
        case (Leaf(a), Leaf(b)) =>
          LeafHalf(cfg, other, if shortIsLeft then At(s) else lo, if shortIsLeft then hi else Below(s));
          MergeLeafOk(cfg, a, b, s, shortIsLeft, lo, hi);
        case (Branch(a), Branch(b)) =>
          BranchHalf(cfg, other);
          MergeBranchOk(cfg, a, b, s, shortIsLeft, h, lo, hi);
        case (_, _) =>
      }
    }
  }

  lemma SameKind(cfg: Cfg, l: Node, s: int, r: Node, shortIsLeft: bool, h: nat, lo: Sep, hi: High)
    requires PairReady(cfg, l, s, r, shortIsLeft, h, lo, hi)
    ensures l.Leaf? <==> r.Leaf?
    ensures l.Leaf? ==> h == 0
    ensures Shape(cfg, l, h, lo, Below(s)) && Shape(cfg, r, h, At(s), hi)
  {
  }

  // ---------------------------------------------------------------- one child of a list

  /** Bounds of the children from j on, and of those before m. */
  function LoAt(cs: seq<Child>, j: nat, lo: Sep): Sep
    requires j < |cs|
  {
    if j == 0 then lo else cs[j].key
  }

  function HiAt(cs: seq<Child>, m: nat, hi: High): High {
    if m < |cs| && cs[m].key.At? then Below(cs[m].key.k) else hi
  }

  lemma Segment(cfg: Cfg, cs: seq<Child>, j: nat, m: nat, h: nat, lo: Sep, hi: High)
    requires j < m <= |cs| && Kids(cfg, cs, h, lo, hi)
    ensures Kids(cfg, cs[j..m], h, LoAt(cs, j, lo), HiAt(cs, m, hi))
  {
    hide Kids;
    var front := cs[..m];
    if m < |cs| { KidsCut(cfg, cs, m, h, lo, hi); } else { assert front == cs; }
    if j > 0 {
      KidsCut(cfg, front, j, h, lo, HiAt(cs, m, hi));
      assert front[j..] == cs[j..m];
    } else {
      assert cs[j..m] == front;
    }
  }

  /** Children j..m are replaced by others with the same first separator and the same bounds. */
  lemma SegmentReplaced(cfg: Cfg, cs: seq<Child>, j: nat, m: nat, q: seq<Child>, h: nat, lo: Sep, hi: High)
    requires j < m <= |cs| && Kids(cfg, cs, h, lo, hi)
    requires q != [] && q[0].key == cs[j].key && Kids(cfg, q, h, LoAt(cs, j, lo), HiAt(cs, m, hi))
    ensures Kids(cfg, cs[..j] + q + cs[m..], h, lo, hi)
  {
    hide Kids;
    var front := cs[..m];
    var tail := cs[m..];
    if m < |cs| { KidsCut(cfg, cs, m, h, lo, hi); } else { assert front == cs; }
    if j > 0 {
      KidsCut(cfg, front, j, h, lo, HiAt(cs, m, hi));
      assert front[..j] == cs[..j];
      KidsJoin(cfg, cs[..j], q, h, lo, HiAt(cs, m, hi));
    } else {
      assert cs[..j] + q == q;
    }
    if m < |cs| {
      KidsJoin(cfg, cs[..j] + q, tail, h, lo, hi);
    } else {
      assert cs[..j] + q + tail == cs[..j] + q;
    }
  }

  lemma FlatAround(cs: seq<Child>, j: nat, q: seq<Child>, m: nat)
    requires j <= m <= |cs|
    ensures Flat(cs[..j] + q + cs[m..]) == Flat(cs[..j]) + Flat(q) + Flat(cs[m..])
    ensures KidLeaves(cs[..j] + q + cs[m..]) == KidLeaves(cs[..j]) + KidLeaves(q) + KidLeaves(cs[m..])
    ensures KidBranches(cs[..j] + q + cs[m..]) == KidBranches(cs[..j]) + KidBranches(q) + KidBranches(cs[m..])
  {
    hide *;
    FlatConcat(cs[..j], q);
    FlatConcat(cs[..j] + q, cs[m..]);
  }

  lemma {:induction false} ChildIndexBounds(cfg: Cfg, cs: seq<Child>, k: int, h: nat, lo: Sep, hi: High)
    requires cs != [] && Kids(cfg, cs, h, lo, hi) && AtLeast(k, lo) && Under(k, hi)
    ensures var i := ChildIndex(cs, k);
            AtLeast(k, LoAt(cs, i, lo)) && Under(k, HiAt(cs, i + 1, hi))
  {
    if |cs| > 1 && AtLeast(k, cs[1].key) {
      ChildIndexBounds(cfg, cs[1..], k, h, cs[1].key, hi);
      var i := ChildIndex(cs[1..], k);
      assert cs[1..][i] == cs[i + 1];
      if i + 1 < |cs[1..]| { assert cs[1..][i + 1] == cs[i + 2]; }
    }
  }

  ghost predicate AllBelow(s: seq<Item>, k: int) {
    forall x :: 0 <= x < |s| ==> s[x].key < k
  }

  ghost predicate AllAbove(s: seq<Item>, k: int) {
    forall x :: 0 <= x < |s| ==> k < s[x].key
  }

  /** The other children hold only smaller keys before and larger keys after. */
  lemma OthersApart(cfg: Cfg, cs: seq<Child>, i: nat, k: int, h: nat, lo: Sep, hi: High)
    requires i < |cs| && Kids(cfg, cs, h, lo, hi) && AtLeast(k, LoAt(cs, i, lo)) && Under(k, HiAt(cs, i + 1, hi))
    ensures AllBelow(Flat(cs[..i]), k) && AllAbove(Flat(cs[i + 1..]), k)
  {
    hide Kids, Flat;
    assert Flat([]) == [] by { FlatEmpty(); }
    if i > 0 {
      KidsCut(cfg, cs, i, h, lo, hi);
      FlatOrdered(cfg, cs[..i], h, lo, Below(cs[i].key.k));
      var f := Flat(cs[..i]);
      forall x | 0 <= x < |f| ensures f[x].key < k { assert Under(f[x].key, Below(cs[i].key.k)); }
    }
    if i + 1 < |cs| {
      KidsCut(cfg, cs, i + 1, h, lo, hi);
      FlatOrdered(cfg, cs[i + 1..], h, cs[i + 1].key, hi);
      var f := Flat(cs[i + 1..]);
      forall x | 0 <= x < |f| ensures k < f[x].key { assert AtLeast(f[x].key, cs[i + 1].key); }
    } else {
      assert cs[i + 1..] == [];
    }
  }

  lemma FlatEmpty()
    ensures Flat([]) == []
  {
  }

  /** Removal from the list is removal from child i. */
  lemma OneDeleted(cfg: Cfg, cs: seq<Child>, i: nat, n: Node, k: int, leaves: nat, branches: nat, h: nat, lo: Sep,
                   hi: High)
    requires i < |cs| && Kids(cfg, cs, h, lo, hi) && AtLeast(k, LoAt(cs, i, lo)) && Under(k, HiAt(cs, i + 1, hi))
    requires Items(n) == Del(Items(cs[i].node), k)
    requires Leaves(n) + leaves == Leaves(cs[i].node) && Branches(n) + branches == Branches(cs[i].node)
    ensures var cs' := cs[i := Child(cs[i].key, n)];
            && Flat(cs') == Del(Flat(cs), k)
            && KidLeaves(cs') + leaves == KidLeaves(cs) && KidBranches(cs') + branches == KidBranches(cs)
  {
    hide Kids, Flat, Items, Del, Leaves, Branches, KidLeaves, KidBranches, AtLeast, Under, LoAt, HiAt;
    OthersApart(cfg, cs, i, k, h, lo, hi);
    var c := Child(cs[i].key, n);
    FlatAround(cs, i, [cs[i]], i + 1);
    FlatAround(cs, i, [c], i + 1);
    FlatOne(cs[i]);
    FlatOne(c);
    assert cs[..i] + [cs[i]] + cs[i + 1..] == cs;
    assert cs[..i] + [c] + cs[i + 1..] == cs[i := c];
    DelLeft(Flat(cs[..i]) + Items(cs[i].node), Flat(cs[i + 1..]), k);
    DelRight(Flat(cs[..i]), Items(cs[i].node), k);
  }

  // ---------------------------------------------------------------- the step on a list of children

  /** All branch nodes with a key take the same space. */
  ghost predicate FixedKeys(cfg: Cfg) {
    forall k: int, k': int :: BranchSize(cfg, At(k)) == BranchSize(cfg, At(k'))
  }

  ghost predicate DelOk(cfg: Cfg, n: Node, r: DelResult, k: int, h: nat, lo: Sep, hi: High) {
    match r
    case NotFound => !Present(Items(n), k)
    case NoRoom => !FixedKeys(cfg)
    case Done(n', check, leaves, branches) =>
      && Present(Items(n), k) && Shape(cfg, n', h, lo, hi) && Items(n') == Del(Items(n), k)
      && Leaves(n') + leaves == Leaves(n) && Branches(n') + branches == Branches(n)
      && (!check ==> Full(n'))
  }

  ghost predicate KidsDelOk(cfg: Cfg, cs: seq<Child>, r: DelKidsResult, k: int, h: nat, lo: Sep, hi: High) {
    match r
    case KidsNotFound => false
    case KidsNoRoom => false
    case KidsDeleted(cs', merged, leaves, branches) =>
      && cs != [] && cs' != [] && cs'[0].key == cs[0].key && Kids(cfg, cs', h, lo, hi)
      && Flat(cs') == Del(Flat(cs), k)
      && KidLeaves(cs') + leaves == KidLeaves(cs) && KidBranches(cs') + branches == KidBranches(cs)
      && |cs'| == if merged then |cs| - 1 else |cs|
  }

  /** A page below the threshold uses less than a quarter page. */
  lemma ShortUse(cfg: Cfg, n: Node, h: nat, lo: Sep, hi: High)
    requires ValidCfg(cfg) && Shape(cfg, n, h, lo, hi) && !(Fill(cfg, n) >= 250 && Keys(n) >= MinKeys(n))
    ensures 4 * Used(cfg, n) < cfg.pmax
  {
    FillMeans(cfg, n);
    if Keys(n) < MinKeys(n) {
      if n.Branch? {
        assert n.cs == [n.cs[0]];
        BranchSizesSingle(cfg, n.cs[0]);
      }
    }
  }

  lemma PairBounds(cfg: Cfg, cs: seq<Child>, j: nat, h: nat, lo: Sep, hi: High)
    requires j + 1 < |cs| && Kids(cfg, cs, h, lo, hi)
    ensures var s := cs[j + 1].key;
            && s.At? && Full(cs[j].node) && Full(cs[j + 1].node)
            && Shape(cfg, cs[j].node, h, LoAt(cs, j, lo), Below(s.k))
            && Shape(cfg, cs[j + 1].node, h, s, HiAt(cs, j + 2, hi))
            && AtLeast(s.k, LoAt(cs, j, lo)) && Under(s.k, HiAt(cs, j + 2, hi))
  {
    Segment(cfg, cs, j, j + 2, h, lo, hi);
    var p := cs[j..j + 2];
    FlatOrdered(cfg, p, h, LoAt(cs, j, lo), HiAt(cs, j + 2, hi));
    assert p[0] == cs[j] && p[1] == cs[j + 1];
    assert p[1..][0] == cs[j + 1];
  }

  /** What a repaired pair gives for the list. */
  lemma PairReplaced(cfg: Cfg, cs: seq<Child>, j: nat, l: Node, r: Node, p: PairResult, h: nat, lo: Sep, hi: High)
    requires !p.Stuck? && j + 1 < |cs| && Kids(cfg, cs, h, lo, hi)
    requires PairOk(cfg, l, r, p, h, LoAt(cs, j, lo), HiAt(cs, j + 2, hi))
    ensures Kids(cfg, Replaced(cs, j, p), h, lo, hi) && Replaced(cs, j, p)[0].key == cs[0].key
    ensures |Replaced(cs, j, p)| == if p.Merged? then |cs| - 1 else |cs|
  {
    hide Kids, PairOk, Shape, HiAt, LoAt;
    PairKids(cfg, cs[j].key, l, r, p, h, LoAt(cs, j, lo), HiAt(cs, j + 2, hi));
    var q := if p.Moved? then [Child(cs[j].key, p.left), Child(p.sep, p.right)] else [Child(cs[j].key, p.n)];
    SegmentReplaced(cfg, cs, j, j + 2, q, h, lo, hi);
  }

  lemma PairKids(cfg: Cfg, key: Sep, l: Node, r: Node, p: PairResult, h: nat, lo: Sep, hi: High)
    requires PairOk(cfg, l, r, p, h, lo, hi)
    ensures Kids(cfg, if p.Moved? then [Child(key, p.left), Child(p.sep, p.right)] else [Child(key, p.n)], h, lo, hi)
  {
    hide Shape, Items, Leaves, Branches;
    if p.Moved? {
      OneKid(cfg, Child(p.sep, p.right), h, p.sep, hi);
      var q := [Child(key, p.left), Child(p.sep, p.right)];
      assert q[1..] == [Child(p.sep, p.right)];
    } else {
      OneKid(cfg, Child(key, p.n), h, lo, hi);
    }
  }

  /** Its items and page counts, against the list before the repair. */
  lemma PairCounts(cs: seq<Child>, j: nat, l: Node, r: Node, q: seq<Child>, dl: nat, db: nat)
    requires j + 1 < |cs| && cs[j].node == l && cs[j + 1].node == r
    requires Flat(q) == Items(l) + Items(r) && KidLeaves(q) + dl == Leaves(l) + Leaves(r)
    requires KidBranches(q) + db == Branches(l) + Branches(r)
    ensures var cs' := cs[..j] + q + cs[j + 2..];
            Flat(cs') == Flat(cs) && KidLeaves(cs') + dl == KidLeaves(cs) && KidBranches(cs') + db == KidBranches(cs)
  {
    hide *;
    FlatAround(cs, j, q, j + 2);
    FlatAround(cs, j, [cs[j]] + [cs[j + 1]], j + 2);
    FlatConcat([cs[j]], [cs[j + 1]]);
    FlatOne(cs[j]);
    FlatOne(cs[j + 1]);
    assert cs[..j] + ([cs[j]] + [cs[j + 1]]) + cs[j + 2..] == cs;
  }

  lemma PairPieces(cfg: Cfg, key: Sep, l: Node, r: Node, p: PairResult, h: nat, lo: Sep, hi: High)
    requires PairOk(cfg, l, r, p, h, lo, hi)
    ensures var q := if p.Moved? then [Child(key, p.left), Child(p.sep, p.right)] else [Child(key, p.n)];
            && Flat(q) == Items(l) + Items(r)
            && KidLeaves(q) + (if p.Merged? && l.Leaf? then 1 else 0) == Leaves(l) + Leaves(r)
            && KidBranches(q) + (if p.Merged? && l.Branch? then 1 else 0) == Branches(l) + Branches(r)
  {
    if p.Moved? {
      var a, b := Child(key, p.left), Child(p.sep, p.right);
      assert [a, b] == [a] + [b];
      FlatConcat([a], [b]);
      FlatOne(a);
      FlatOne(b);
    } else {
      FlatOne(Child(key, p.n));
    }
    hide Shape, Flat, KidLeaves, KidBranches, Items, Leaves, Branches, Full;
  }

  lemma DeletedInList(cfg: Cfg, cs: seq<Child>, i: nat, n: Node, k: int, check: bool, leaves: nat, branches: nat,
                      h: nat, lo: Sep, hi: High)
    requires i < |cs| && Kids(cfg, cs, h, lo, hi) && AtLeast(k, LoAt(cs, i, lo)) && Under(k, HiAt(cs, i + 1, hi))
    requires DelOk(cfg, cs[i].node, Done(n, check, leaves, branches), k, h, LoAt(cs, i, lo), HiAt(cs, i + 1, hi))
    ensures var cs' := cs[i := Child(cs[i].key, n)];
            && Flat(cs') == Del(Flat(cs), k)
            && KidLeaves(cs') + leaves == KidLeaves(cs) && KidBranches(cs') + branches == KidBranches(cs)
    ensures Shape(cfg, n, h, LoAt(cs, i, lo), HiAt(cs, i + 1, hi))
  {
    hide Kids, Shape, Flat, Items, Del, Leaves, Branches, KidLeaves, KidBranches, AtLeast, Under, LoAt, HiAt, Full,
         Present;
    OneDeleted(cfg, cs, i, n, k, leaves, branches, h, lo, hi);
  }

  lemma OneKid(cfg: Cfg, c: Child, h: nat, lo: Sep, hi: High)
    requires Full(c.node) && Shape(cfg, c.node, h, lo, hi)
    ensures Kids(cfg, [c], h, lo, hi)
  {
  }

  /** Child i is now n, and n is not short. */
  lemma KeptOk(cfg: Cfg, cs: seq<Child>, i: nat, n: Node, k: int, leaves: nat, branches: nat, h: nat, lo: Sep, hi: High)
    requires i < |cs| && Kids(cfg, cs, h, lo, hi) && AtLeast(k, LoAt(cs, i, lo)) && Under(k, HiAt(cs, i + 1, hi))
    requires Full(n)
    requires DelOk(cfg, cs[i].node, Done(n, true, leaves, branches), k, h, LoAt(cs, i, lo), HiAt(cs, i + 1, hi))
    ensures KidsDelOk(cfg, cs, KidsDeleted(cs[i := Child(cs[i].key, n)], false, leaves, branches), k, h, lo, hi)
  {
    hide Kids, Shape, Flat, Items, Del, Leaves, Branches, KidLeaves, KidBranches, AtLeast, Under, LoAt, HiAt, Full,
         DelOk;
    var c := Child(cs[i].key, n);
    DeletedInList(cfg, cs, i, n, k, true, leaves, branches, h, lo, hi);
    OneKid(cfg, c, h, LoAt(cs, i, lo), HiAt(cs, i + 1, hi));
    SegmentReplaced(cfg, cs, i, i + 1, [c], h, lo, hi);
    assert cs[..i] + [c] + cs[i + 1..] == cs[i := c];
  }

  /** Child i is now n, short, and repaired with its neighbour. */
  lemma RepairedOk(cfg: Cfg, cs: seq<Child>, i: nat, n: Node, k: int, leaves: nat, branches: nat, h: nat, lo: Sep,
                   hi: High)
    requires ValidCfg(cfg) && i < |cs| && |cs| >= 2 && Kids(cfg, cs, h, lo, hi)
    requires AtLeast(k, LoAt(cs, i, lo)) && Under(k, HiAt(cs, i + 1, hi))
    requires DelOk(cfg, cs[i].node, Done(n, true, leaves, branches), k, h, LoAt(cs, i, lo), HiAt(cs, i + 1, hi))
    requires !(Fill(cfg, n) >= 250 && Keys(n) >= MinKeys(n))
    ensures KidsDelOk(cfg, cs, Rebalance(cfg, cs, i, n, true, leaves, branches), k, h, lo, hi)
  {
    hide Kids, Shape, Flat, Items, Del, Leaves, Branches, KidLeaves, KidBranches, AtLeast, Under, Full, Fill, PairOk,
         RepairPair, Used, ValidCfg, Present;
    var j := if i == 0 then 0 else i - 1;
    var l, r := if i == 0 then n else cs[i - 1].node, if i == 0 then cs[1].node else n;
    var s := cs[j + 1].key;
    PairBounds(cfg, cs, j, h, lo, hi);
    ShortUse(cfg, n, h, LoAt(cs, i, lo), HiAt(cs, i + 1, hi));
    BranchNotEmpty(cfg, n, h, LoAt(cs, i, lo), HiAt(cs, i + 1, hi));
    RepairPairOk(cfg, l, s.k, r, i == 0, h, LoAt(cs, j, lo), HiAt(cs, j + 2, hi));
    var p := RepairPair(cfg, l, r, i == 0);
    SameKind(cfg, l, s.k, r, i == 0, h, LoAt(cs, j, lo), HiAt(cs, j + 2, hi));
    RepairedList(cfg, cs, i, j, n, l, r, p, k, leaves, branches, h, lo, hi);
  }

  lemma BranchNotEmpty(cfg: Cfg, n: Node, h: nat, lo: Sep, hi: High)
    requires Shape(cfg, n, h, lo, hi)
    ensures n.Branch? ==> n.cs != []
  {
  }

  lemma RepairedList(cfg: Cfg, cs: seq<Child>, i: nat, j: nat, n: Node, l: Node, r: Node, p: PairResult, k: int,
                     leaves: nat, branches: nat, h: nat, lo: Sep, hi: High)
    requires i < |cs| && j + 1 < |cs| && (i == j || i == j + 1) && Kids(cfg, cs, h, lo, hi)
    requires AtLeast(k, LoAt(cs, i, lo)) && Under(k, HiAt(cs, i + 1, hi))
    requires DelOk(cfg, cs[i].node, Done(n, true, leaves, branches), k, h, LoAt(cs, i, lo), HiAt(cs, i + 1, hi))
    requires l == (if i == j then n else cs[j].node) && r == (if i == j then cs[j + 1].node else n)
    requires (l.Leaf? <==> r.Leaf?)
    requires PairOk(cfg, l, r, p, h, LoAt(cs, j, lo), HiAt(cs, j + 2, hi))
    ensures KidsDelOk(cfg, cs,
      KidsDeleted(Replaced(cs, j, p), p.Merged?, leaves + (if p.Merged? && n.Leaf? then 1 else 0),
                                           branches + (if p.Merged? && n.Branch? then 1 else 0)), k, h, lo, hi)
  {
    hide Kids, Shape, Flat, Items, Del, Leaves, Branches, KidLeaves, KidBranches, AtLeast, Under, Full, DelOk, LoAt,
         HiAt;
    assert !p.Stuck?;
    hide PairOk;
    DeletedInList(cfg, cs, i, n, k, true, leaves, branches, h, lo, hi);
    PairReplaced(cfg, cs, j, l, r, p, h, lo, hi);
    PairPieces(cfg, cs[j].key, l, r, p, h, LoAt(cs, j, lo), HiAt(cs, j + 2, hi));
    var q := if p.Moved? then [Child(cs[j].key, p.left), Child(p.sep, p.right)] else [Child(cs[j].key, p.n)];
    PairInList(cs, i, j, n, l, r, p, q);
  }

  /** The repaired list against the list with n in it, before the repair. */
  lemma PairInList(cs: seq<Child>, i: nat, j: nat, n: Node, l: Node, r: Node, p: PairResult, q: seq<Child>)
    requires i < |cs| && j + 1 < |cs| && (i == j || i == j + 1) && !p.Stuck?
    requires l == (if i == j then n else cs[j].node) && r == (if i == j then cs[j + 1].node else n)
    requires (l.Leaf? <==> r.Leaf?)
    requires q == if p.Moved? then [Child(cs[j].key, p.left), Child(p.sep, p.right)] else [Child(cs[j].key, p.n)]
    requires Flat(q) == Items(l) + Items(r)
    requires KidLeaves(q) + (if p.Merged? && l.Leaf? then 1 else 0) == Leaves(l) + Leaves(r)
    requires KidBranches(q) + (if p.Merged? && l.Branch? then 1 else 0) == Branches(l) + Branches(r)
    ensures var cs1 := cs[i := Child(cs[i].key, n)];
            && Flat(Replaced(cs, j, p)) == Flat(cs1)
            && KidLeaves(Replaced(cs, j, p)) + (if p.Merged? && n.Leaf? then 1 else 0) == KidLeaves(cs1)
            && KidBranches(Replaced(cs, j, p)) + (if p.Merged? && n.Branch? then 1 else 0) == KidBranches(cs1)
  {
    hide Flat, Items, Leaves, Branches, KidLeaves, KidBranches;
    var cs1 := cs[i := Child(cs[i].key, n)];
    PairCounts(cs1, j, l, r, q, if p.Merged? && l.Leaf? then 1 else 0, if p.Merged? && l.Branch? then 1 else 0);
    assert cs1[..j] == cs[..j] && cs1[j + 2..] == cs[j + 2..];
  }

  lemma RebalanceOk(cfg: Cfg, cs: seq<Child>, i: nat, n: Node, check: bool, k: int, leaves: nat, branches: nat, h: nat,
                    lo: Sep, hi: High)
    requires ValidCfg(cfg) && cfg.pmax > 0 && i < |cs| && |cs| >= 2 && Kids(cfg, cs, h, lo, hi)
    requires AtLeast(k, LoAt(cs, i, lo)) && Under(k, HiAt(cs, i + 1, hi))
    requires DelOk(cfg, cs[i].node, Done(n, check, leaves, branches), k, h, LoAt(cs, i, lo), HiAt(cs, i + 1, hi))
    ensures KidsDelOk(cfg, cs, Rebalance(cfg, cs, i, n, check, leaves, branches), k, h, lo, hi)
  {
    hide Kids, Shape, Flat, Items, Del, Leaves, Branches, KidLeaves, KidBranches, AtLeast, Under, LoAt, HiAt,
         KidsDelOk, Fill, Used, Present, RepairPair, ValidCfg;
    if !check || (Fill(cfg, n) >= 250 && Keys(n) >= MinKeys(n)) {
      KeptOk(cfg, cs, i, n, k, leaves, branches, h, lo, hi);
    } else {
      RepairedOk(cfg, cs, i, n, k, leaves, branches, h, lo, hi);
    }
  }

  // ---------------------------------------------------------------- the whole tree

  lemma DelAtPos(es: seq<Item>, k: int)
    requires Increasing(es)
    ensures var p := Pos(es, k);
            if p < |es| && es[p].key == k then Present(es, k) && Del(es, k) == es[..p] + es[p + 1..] &&
              |Del(es, k)| == |es| - 1
            else !Present(es, k)
  {
    var p := Pos(es, k);
    if p < |es| && es[p].key == k {
      hide Increasing, Pos;
      DelHit(es, p, k);
    } else {
      hide Pos;
      assert forall i :: p < i < |es| ==> es[p].key < es[i].key;
    }
  }

  lemma DelHit(es: seq<Item>, p: nat, k: int)
    requires p < |es| && es[p].key == k && forall i :: 0 <= i < p ==> es[i].key < k
    ensures Del(es, k) == es[..p] + es[p + 1..] && |Del(es, k)| == |es| - 1
  {
    var a, b := es[..p], es[p..];
    assert es == a + b;
    DelRight(a, b, k);
    assert b[1..] == es[p + 1..];
    assert Del(b, k) == b[1..];
  }

  lemma DelLeafOk(cfg: Cfg, es: seq<Item>, k: int, lo: Sep, hi: High)
    requires Shape(cfg, Leaf(es), 0, lo, hi) && cfg.pmax > 0
    ensures DelOk(cfg, Leaf(es), DelNode(cfg, Leaf(es), k), k, 0, lo, hi)
  {
    hide LeafSizes, LeafSize, Sum, Increasing, Within, Pos, Del, Present, Shape, LeafOk, FixedKeys;
    ShapeLeaf(cfg, es, lo, hi);
    LeafIncreasing(cfg, es, lo, hi);
    DelAtPos(es, k);
    var p := Pos(es, k);
    if p < |es| && es[p].key == k {
      LeafWithout(cfg, es, p, lo, hi);
      LeafShape(cfg, es[..p] + es[p + 1..], lo, hi);
    }
  }

  lemma NotInList(cfg: Cfg, cs: seq<Child>, i: nat, k: int, h: nat, lo: Sep, hi: High)
    requires i < |cs| && Kids(cfg, cs, h, lo, hi) && AtLeast(k, LoAt(cs, i, lo)) && Under(k, HiAt(cs, i + 1, hi))
    ensures Present(Flat(cs), k) <==> Present(Items(cs[i].node), k)
  {
    hide Kids, Flat, Items, LoAt, HiAt, AtLeast, Under;
    OthersApart(cfg, cs, i, k, h, lo, hi);
    FlatAround(cs, i, [cs[i]], i + 1);
    FlatOne(cs[i]);
    assert cs[..i] + [cs[i]] + cs[i + 1..] == cs;
    var x, y, z := Flat(cs[..i]), Items(cs[i].node), Flat(cs[i + 1..]);
    PresentConcat(x + y, z, k);
    PresentConcat(x, y, k);
  }

  /** With fixed-size keys the separators of the repaired page take no more space than before. */
  lemma FixedKeysFit(cfg: Cfg, cs: seq<Child>, cs': seq<Child>, h: nat, lo: Sep, hi: High)
    requires FixedKeys(cfg) && Kids(cfg, cs, h, lo, hi) && Kids(cfg, cs', h, lo, hi)
    requires cs != [] && cs' != [] && |cs'| <= |cs| && cs'[0].key == cs[0].key
    ensures Sum(BranchSizes(cfg, cs')) <= Sum(BranchSizes(cfg, cs))
  {
    hide Kids, Sum, BranchSize;
    var a, b := BranchSizes(cfg, cs'), BranchSizes(cfg, cs)[..|cs'|];
    forall i | 0 <= i < |cs'| ensures a[i] == b[i] {
      if i > 0 {
        KidsCut(cfg, cs, i, h, lo, hi);
        KidsCut(cfg, cs', i, h, lo, hi);
        assert BranchSize(cfg, At(cs[i].key.k)) == BranchSize(cfg, At(cs'[i].key.k));
      }
    }
    assert a == b;
    SumCut(BranchSizes(cfg, cs), |cs'|);
  }

  lemma {:induction false} DelNodeOk(cfg: Cfg, n: Node, k: int, h: nat, lo: Sep, hi: High)
    requires ValidCfg(cfg) && cfg.pmax > 0 && Full(n) && Shape(cfg, n, h, lo, hi) && AtLeast(k, lo) && Under(k, hi)
    ensures DelOk(cfg, n, DelNode(cfg, n, k), k, h, lo, hi)
    decreases h
  {
    hide Kids, Flat, Items, Del, KidLeaves, KidBranches, AtLeast, Under, LoAt, HiAt, DelOk, KidsDelOk, Present,
         FixedKeys, ValidCfg;
    match n {
      case Leaf(es) => DelLeafOk(cfg, es, k, lo, hi);
      case Branch(cs) =>
        var i := ChildIndex(cs, k);
        ChildIndexBounds(cfg, cs, k, h - 1, lo, hi);
        ChildBounds(cfg, cs, i, h - 1, lo, hi);
        DelNodeOk(cfg, cs[i].node, k, h - 1, LoAt(cs, i, lo), HiAt(cs, i + 1, hi));
        DelBranchOk(cfg, cs, i, k, h, lo, hi);
    }
  }

  lemma ChildBounds(cfg: Cfg, cs: seq<Child>, i: nat, h: nat, lo: Sep, hi: High)
    requires i < |cs| && Kids(cfg, cs, h, lo, hi)
    ensures Full(cs[i].node) && Shape(cfg, cs[i].node, h, LoAt(cs, i, lo), HiAt(cs, i + 1, hi))
  {
    Segment(cfg, cs, i, i + 1, h, lo, hi);
    assert cs[i..i + 1] == [cs[i]];
  }

  lemma DelBranchOk(cfg: Cfg, cs: seq<Child>, i: nat, k: int, h: nat, lo: Sep, hi: High)
    requires ValidCfg(cfg) && cfg.pmax > 0 && |cs| >= 2 && Shape(cfg, Branch(cs), h, lo, hi) && i == ChildIndex(cs, k)
    requires AtLeast(k, LoAt(cs, i, lo)) && Under(k, HiAt(cs, i + 1, hi))
    requires h > 0
    requires DelOk(cfg, cs[i].node, DelNode(cfg, cs[i].node, k), k, h - 1, LoAt(cs, i, lo), HiAt(cs, i + 1, hi))
    ensures DelOk(cfg, Branch(cs), DelNode(cfg, Branch(cs), k), k, h, lo, hi)
  {
    hide Kids, Flat, Del, KidLeaves, KidBranches, AtLeast, Under, LoAt, HiAt, KidsDelOk, Present, FixedKeys, ValidCfg,
         Rebalance, Sum, BranchSizes, Shape, Full;
    BranchFacts(cfg, cs, h, lo, hi);
    NotInList(cfg, cs, i, k, h - 1, lo, hi);
    var r := DelNode(cfg, cs[i].node, k);
    if r.Done? {
      RebalanceOk(cfg, cs, i, r.n, r.check, k, r.leaves, r.branches, h - 1, lo, hi);
      var s := Rebalance(cfg, cs, i, r.n, r.check, r.leaves, r.branches);
      hide DelOk;
      RebalancedBranch(cfg, cs, s, k, h, lo, hi);
      assert DelNode(cfg, Branch(cs), k) == if Sum(BranchSizes(cfg, s.cs)) > cfg.pmax then NoRoom
        else Done(Branch(s.cs), s.merged, s.leaves, s.branches);
    }
  }

  lemma BranchFacts(cfg: Cfg, cs: seq<Child>, h: nat, lo: Sep, hi: High)
    requires Shape(cfg, Branch(cs), h, lo, hi)
    ensures h > 0 && cs != [] && cs[0].key.Blank? && Kids(cfg, cs, h - 1, lo, hi)
    ensures Sum(BranchSizes(cfg, cs)) <= cfg.pmax
  {
  }

  lemma RebalancedBranch(cfg: Cfg, cs: seq<Child>, s: DelKidsResult, k: int, h: nat, lo: Sep, hi: High)
    requires |cs| >= 2 && Shape(cfg, Branch(cs), h, lo, hi) && h > 0 && Present(Flat(cs), k)
    requires KidsDelOk(cfg, cs, s, k, h - 1, lo, hi)
    ensures s.KidsDeleted?
    ensures DelOk(cfg, Branch(cs), if Sum(BranchSizes(cfg, s.cs)) > cfg.pmax then NoRoom
      else Done(Branch(s.cs), s.merged, s.leaves, s.branches), k, h, lo, hi)
  {
    BranchFacts(cfg, cs, h, lo, hi);
    hide Kids, Flat, Del, KidLeaves, KidBranches, Present, FixedKeys, Sum, BranchSizes, Shape;
    if Sum(BranchSizes(cfg, s.cs)) > cfg.pmax {
      if FixedKeys(cfg) { FixedKeysFit(cfg, cs, s.cs, h - 1, lo, hi); }
    } else {
      BranchShape(cfg, s.cs, h, lo, hi);
    }
  }

  lemma {:induction false} DelLength(s: seq<Item>, k: int)
    requires Present(s, k)
    ensures |Del(s, k)| == |s| - 1
  {
    if s[0].key != k {
      var i :| 0 <= i < |s| && s[i].key == k;
      assert s[1..][i - 1].key == k;
      DelLength(s[1..], k);
    }
  }

  /** The outcome of a deletion on the database, against its map. */
  ghost predicate DeletedOk(cfg: Cfg, db: Db, k: int, r: DbDelResult) {
    match r
    case Absent => k !in ToMap(DbItems(db))
    case Unmodelled => !FixedKeys(cfg)
    case Deleted(db') => k in ToMap(DbItems(db)) && DbOk(cfg, db') && ToMap(DbItems(db')) == ToMap(DbItems(db)) - {k}
  }

  /** A delete keeps the database well-formed, with exact counters, and removes exactly key k; it is not found
      exactly when the key is absent. Only a longer separator can fail to fit, never with fixed-size keys. */
  lemma DeleteRefinesMap(cfg: Cfg, db: Db, k: int)
    requires ValidCfg(cfg) && DbOk(cfg, db)
    ensures DeletedOk(cfg, db, k, Delete(cfg, db, k))
  {
    if db.root != [] {
      hide Shape, Items, Full, Leaves, Branches, ToMap, DelNode, Del, DelOk, Fill, FixedKeys, ValidCfg;
      var root, h := db.root[0], db.depth - 1;
      DelNodeOk(cfg, root, k, h, Blank, Top);
      ItemsOrdered(cfg, root, h, Blank, Top);
      hide DelOk, Increasing, Within;
      RootFacts(cfg, root, k, h);
      MapKeys(Items(root), k);
      var r := DelNode(cfg, root, k);
      if r.Done? { RootDeleted(cfg, db, k, r); }
    }
  }

  lemma RootFacts(cfg: Cfg, n: Node, k: int, h: nat)
    requires Increasing(Items(n)) && cfg.pmax > 0 && DelOk(cfg, n, DelNode(cfg, n, k), k, h, Blank, Top)
    ensures match DelNode(cfg, n, k)
            case NotFound => !Present(Items(n), k)
            case NoRoom => !FixedKeys(cfg)
            case Done(_, _, _, _) =>
              Present(Items(n), k) && |Del(Items(n), k)| == |Items(n)| - 1 &&
                ToMap(Del(Items(n), k)) == ToMap(Items(n)) - {k}
  {
    hide Shape, Items, Full, Leaves, Branches, Del, DelNode, Present, FixedKeys;
    if DelNode(cfg, n, k).Done? {
      DelLength(Items(n), k);
      DelMap(Items(n), k);
    }
  }

  /** The root page after the deletion: kept, emptied or collapsed. */
  lemma RootDeleted(cfg: Cfg, db: Db, k: int, r: DelResult)
    requires ValidCfg(cfg) && DbOk(cfg, db) && db.root != [] && r.Done? && r == DelNode(cfg, db.root[0], k)
    requires DelOk(cfg, db.root[0], r, k, db.depth - 1, Blank, Top)
    requires |Del(Items(db.root[0]), k)| == |Items(db.root[0])| - 1
    ensures var d := Delete(cfg, db, k); d.Deleted? && DbOk(cfg, d.db) && DbItems(d.db) == Del(DbItems(db), k)
  {
    hide Items, Shape, Leaves, Branches, Full, Del, DelNode, Fill, ValidCfg, Present;
    RootPage(cfg, r.n, db.depth - 1);
  }

  lemma RootPage(cfg: Cfg, n: Node, h: nat)
    requires Shape(cfg, n, h, Blank, Top)
    ensures Keys(n) >= MinKeys(n) ==> Full(n)
    ensures Keys(n) == 0 ==> n.Leaf? && Items(n) == [] && Leaves(n) == 1 && Branches(n) == 0
    ensures n.Branch? && Keys(n) == 1 ==>
      var c := n.cs[0].node;
      h > 0 && Full(c) && Shape(cfg, c, h - 1, Blank, Top) && Items(n) == Items(c) && Leaves(n) == Leaves(c) &&
        Branches(n) == Branches(c) + 1
  {
    if n.Branch? && Keys(n) == 1 {
      assert n.cs == [n.cs[0]];
      FlatOne(n.cs[0]);
    }
  }

  // ---------------------------------------------------------------- when a separator finds no room

  predicate Short(cfg: Cfg, n: Node)
    requires cfg.pmax > 0
  {
    !(Fill(cfg, n) >= 250 && Keys(n) >= MinKeys(n))
  }

  /** A neighbour that gives a node away. */
  predicate Rich(cfg: Cfg, n: Node)
    requires cfg.pmax > 0
  {
    Fill(cfg, n) >= 250 && Keys(n) > MinKeys(n)
  }

  /** The separator after a node moved: the right page's second key, or the left page's last one. */
  function MovedSep(l: Node, r: Node, shortIsLeft: bool): Sep {
    if shortIsLeft then
      match r
      case Leaf(b) => if |b| < 2 then Blank else At(b[1].key)
      case Branch(b) => if |b| < 2 then Blank else b[1].key
    else
      match l
      case Leaf(a) => if a == [] then Blank else At(a[|a| - 1].key)
      case Branch(a) => if a == [] then Blank else a[|a| - 1].key
  }

  /** A parent without room: its child i, now n, takes a node from a neighbour, and the new separator is too long. */
  ghost predicate TightParent(cfg: Cfg, cs: seq<Child>, i: nat, n: Node, check: bool)
    requires cfg.pmax > 0 && i < |cs|
  {
    && check && Short(cfg, n) && |cs| >= 2
    && var l, r, j := if i == 0 then n else cs[i - 1].node, if i == 0 then cs[1].node else n, if i == 0 then 0
         else i - 1;
       && Rich(cfg, if i == 0 then r else l)
       && Sum(BranchSizes(cfg, cs)) - BranchSize(cfg, cs[j + 1].key) + BranchSize(cfg,
            MovedSep(l, r, i == 0)) > cfg.pmax
  }

  /** Some parent on the path of the key is too tight for the separator that the repair below it needs. */
  ghost predicate PathTight(cfg: Cfg, n: Node, k: int)
    requires cfg.pmax > 0
  {
    match n
    case Leaf(_) => false
    case Branch(cs) =>
      cs != [] &&
      var i := ChildIndex(cs, k);
      || ChildTight(cfg, cs[i], k)
      || match DelChild(cfg, cs[i], k)
         case NotFound => false
         case NoRoom => false
         case Done(n', check, _, _) => TightParent(cfg, cs, i, n', check)
  }

  ghost predicate ChildTight(cfg: Cfg, c: Child, k: int)
    requires cfg.pmax > 0
  {
    PathTight(cfg, c.node, k)
  }

  /** A node that is moved determines the separator. */
  lemma MovedSepIs(cfg: Cfg, l: Node, r: Node, shortIsLeft: bool)
    requires cfg.pmax > 0 && RepairPair(cfg, l, r, shortIsLeft).Moved?
    ensures RepairPair(cfg, l, r, shortIsLeft).sep == MovedSep(l, r, shortIsLeft)
    ensures Rich(cfg, if shortIsLeft then r else l)
  {
    hide Used, Fill, LeafSize, BranchSize;
  }

  lemma MergedIsPoor(cfg: Cfg, l: Node, r: Node, shortIsLeft: bool)
    requires cfg.pmax > 0 && RepairPair(cfg, l, r, shortIsLeft).Merged?
    ensures !Rich(cfg, if shortIsLeft then r else l)
  {
    hide Used, Fill, LeafSize, BranchSize;
  }

  lemma SizesReplaced(cfg: Cfg, cs: seq<Child>, j: nat, p: PairResult)
    requires j + 2 <= |cs| && !p.Stuck?
    ensures p.Moved? ==> Sum(BranchSizes(cfg, Replaced(cs, j, p))) ==
                         Sum(BranchSizes(cfg, cs)) - BranchSize(cfg, cs[j + 1].key) + BranchSize(cfg, p.sep)
    ensures p.Merged? ==>
      Sum(BranchSizes(cfg, Replaced(cs, j, p))) ==
      Sum(BranchSizes(cfg, cs)) - BranchSize(cfg, cs[j + 1].key)
  {
    hide BranchSizes, BranchSize, Sum;
    var a, b, c := cs[..j], [cs[j], cs[j + 1]], cs[j + 2..];
    var q := if p.Moved? then [Child(cs[j].key, p.left), Child(p.sep, p.right)] else [Child(cs[j].key, p.n)];
    assert cs == a + b + c && b == [cs[j]] + [cs[j + 1]];
    BranchSizesConcat(cfg, a + b, c);
    BranchSizesConcat(cfg, a, b);
    BranchSizesConcat(cfg, [cs[j]], [cs[j + 1]]);
    BranchSizesConcat(cfg, a + q, c);
    BranchSizesConcat(cfg, a, q);
    BranchSizesSingle(cfg, cs[j]);
    BranchSizesSingle(cfg, cs[j + 1]);
    BranchSizesSingle(cfg, q[0]);
    if p.Moved? {
      assert q == [q[0]] + [q[1]];
      BranchSizesConcat(cfg, [q[0]], [q[1]]);
      BranchSizesSingle(cfg, q[1]);
    } else {
      assert q == [q[0]];
    }
  }

  lemma SizesKept(cfg: Cfg, cs: seq<Child>, i: nat, n: Node)
    requires i < |cs|
    ensures Sum(BranchSizes(cfg, cs[i := Child(cs[i].key, n)])) == Sum(BranchSizes(cfg, cs))
  {
    hide Sum, BranchSize;
    assert BranchSizes(cfg, cs[i := Child(cs[i].key, n)]) == BranchSizes(cfg, cs);
  }

  lemma TightExactly(cfg: Cfg, cs: seq<Child>, i: nat, n: Node, check: bool, leaves: nat, branches: nat)
    requires cfg.pmax > 0 && i < |cs| && |cs| >= 2 && Sum(BranchSizes(cfg, cs)) <= cfg.pmax
    requires Rebalance(cfg, cs, i, n, check, leaves, branches).KidsDeleted?
    ensures Sum(BranchSizes(cfg, Rebalance(cfg, cs, i, n, check, leaves, branches).cs)) > cfg.pmax <==>
      TightParent(cfg, cs, i, n, check)
  {
    hide BranchSizes, BranchSize, Sum, Fill, RepairPair, Replaced, MovedSep, Rich;
    SizesKept(cfg, cs, i, n);
    if check && Short(cfg, n) {
      var l, r, j := if i == 0 then n else cs[i - 1].node, if i == 0 then cs[1].node else n, if i == 0 then 0
        else i - 1;
      var p := RepairPair(cfg, l, r, i == 0);
      SizesReplaced(cfg, cs, j, p);
      if p.Moved? { MovedSepIs(cfg, l, r, i == 0); } else { MergedIsPoor(cfg, l, r, i == 0); }
    }
  }

  lemma {:induction false} NoRoomExactly(cfg: Cfg, n: Node, k: int, h: nat, lo: Sep, hi: High)
    requires ValidCfg(cfg) && cfg.pmax > 0 && Full(n) && Shape(cfg, n, h, lo, hi) && AtLeast(k, lo) && Under(k, hi)
    ensures DelNode(cfg, n, k).NoRoom? <==> PathTight(cfg, n, k)
    decreases h
  {
    hide Kids, Flat, Items, Del, KidLeaves, KidBranches, AtLeast, Under, LoAt, HiAt, DelOk, KidsDelOk, Present,
         FixedKeys, ValidCfg, Rebalance, TightParent, Sum, BranchSizes;
    match n {
      case Leaf(_) =>
      case Branch(cs) =>
        var i := ChildIndex(cs, k);
        ChildIndexBounds(cfg, cs, k, h - 1, lo, hi);
        ChildBounds(cfg, cs, i, h - 1, lo, hi);
        NoRoomExactly(cfg, cs[i].node, k, h - 1, LoAt(cs, i, lo), HiAt(cs, i + 1, hi));
        DelNodeOk(cfg, cs[i].node, k, h - 1, LoAt(cs, i, lo), HiAt(cs, i + 1, hi));
        NoRoomStep(cfg, cs, i, k, h, lo, hi);
    }
  }

  lemma NoRoomStep(cfg: Cfg, cs: seq<Child>, i: nat, k: int, h: nat, lo: Sep, hi: High)
    requires ValidCfg(cfg) && cfg.pmax > 0 && |cs| >= 2 && Shape(cfg, Branch(cs), h, lo, hi) && i == ChildIndex(cs, k)
    requires AtLeast(k, LoAt(cs, i, lo)) && Under(k, HiAt(cs, i + 1, hi))
    requires h > 0
    requires DelOk(cfg, cs[i].node, DelNode(cfg, cs[i].node, k), k, h - 1, LoAt(cs, i, lo), HiAt(cs, i + 1, hi))
    requires DelNode(cfg, cs[i].node, k).NoRoom? <==> PathTight(cfg, cs[i].node, k)
    ensures DelNode(cfg, Branch(cs), k).NoRoom? <==> PathTight(cfg, Branch(cs), k)
  {
    hide Kids, Flat, Del, KidLeaves, KidBranches, AtLeast, Under, LoAt, HiAt, KidsDelOk, Present, FixedKeys, ValidCfg,
         Rebalance, Sum, BranchSizes, Shape, Full, DelOk, TightParent;
    BranchFacts(cfg, cs, h, lo, hi);
    var r := DelNode(cfg, cs[i].node, k);
    assert DelChild(cfg, cs[i], k) == r && ChildTight(cfg, cs[i], k) == PathTight(cfg, cs[i].node, k);
    if r.Done? {
      RebalanceOk(cfg, cs, i, r.n, r.check, k, r.leaves, r.branches, h - 1, lo, hi);
      DeletedThere(cfg, cs, Rebalance(cfg, cs, i, r.n, r.check, r.leaves, r.branches), k, h - 1, lo, hi);
      TightExactly(cfg, cs, i, r.n, r.check, r.leaves, r.branches);
    }
  }

  lemma DeletedThere(cfg: Cfg, cs: seq<Child>, r: DelKidsResult, k: int, h: nat, lo: Sep, hi: High)
    requires KidsDelOk(cfg, cs, r, k, h, lo, hi)
    ensures r.KidsDeleted?
  {
  }

  /** A delete is left to the separator split exactly when a parent on the key's path is too tight. */
  lemma DeleteUnmodelledExactly(cfg: Cfg, db: Db, k: int)
    requires ValidCfg(cfg) && DbOk(cfg, db)
    ensures Delete(cfg, db, k).Unmodelled? <==> db.root != [] && PathTight(cfg, db.root[0], k)
  {
    hide Shape, Items, Full, Leaves, Branches, DelNode, PathTight, Fill;
    if db.root != [] {
      NoRoomExactly(cfg, db.root[0], k, db.depth - 1, Blank, Top);
    }
  }
}
