/** What a put or a delete makes of the pages on the path of its key, stated without the functions that compute it. */
module BTreeSteps {
  import opened Seqs
  import opened Split
  import opened BTree
  import opened BTreePut
  import opened BTreeDel

  /** What becomes of a page: it stays one page, or is cut in two with a separator for the right half. */
  datatype Outcome = Whole(n: Node) | Halves(l: Node, sep: Sep, r: Node)

  /** The key belongs below child i. */
  ghost predicate Leads(cs: seq<Child>, i: nat, k: int) {
    i < |cs| && (i > 0 ==> AtLeast(k, cs[i].key)) && (i + 1 < |cs| ==> !AtLeast(k, cs[i + 1].key))
  }

  /** A page cut before node m: the right half's first key becomes the separator, and is blanked on a branch page. */
  function CutAt(n: Node, m: nat): Outcome
    requires m < Keys(n)
  {
    match n
    case Leaf(es) => Halves(Leaf(es[..m]), At(es[m].key), Leaf(es[m..]))
    case Branch(cs) => Halves(Branch(cs[..m]), cs[m].key, Branch([Child(Blank, cs[m].node)] + cs[m + 1..]))
  }

  function Sizes(cfg: Cfg, n: Node): (s: seq<nat>)
    ensures |s| == Keys(n) && Sum(s) == Used(cfg, n)
  {
    match n
    case Leaf(es) => LeafSizes(cfg, es)
    case Branch(cs) => BranchSizes(cfg, cs)
  }

  /** A page with a new node at `at`: as it is when it fits, else cut at the split point. */
  ghost predicate Grown(cfg: Cfg, n: Node, at: nat, o: Outcome) {
    if Used(cfg, n) <= cfg.pmax then o == Whole(n)
    else exists m :: 0 < m < Keys(n) && IsSplitPoint(Sizes(cfg, n), at, cfg.pmax, m) && o == CutAt(n, m)
  }

  // ---------------------------------------------------------------- put

  ghost predicate LeafGrown(cfg: Cfg, es: seq<Item>, k: int, d: seq<int>, b: bool, at: nat, o: Outcome) {
    var all := Upd(es, Item(k, d, b));
    at < |all| && all[at].key == k && Grown(cfg, Leaf(all), at, o)
  }

  /** Children of a branch page when child i has become o. */
  function Refitted(cs: seq<Child>, i: nat, o: Outcome): seq<Child>
    requires i < |cs|
  {
    cs[..i] + (if o.Whole? then [Child(cs[i].key, o.n)] else [Child(cs[i].key, o.l), Child(o.sep, o.r)]) + cs[i + 1..]
  }

  /** The pages on the path of k after d is put under it: the leaf takes the entry and is cut if it has become too
      large; a branch page takes the halves of a child that was cut, and is cut itself if it has become too large. */
  ghost predicate PutAlong(cfg: Cfg, n: Node, k: int, d: seq<int>, reuse: bool, o: Outcome) {
    match n
    case Leaf(es) =>
      exists b, at: nat :: StoredAs(cfg, es, k, d, reuse, b) && LeafGrown(cfg, es, k, d, b, at, o)
    case Branch(cs) =>
      exists i: nat, o' ::
        && Leads(cs, i, k) && ChildPutAlong(cfg, cs[i], k, d, reuse, o')
        && if o'.Whole? then o == Whole(Branch(Refitted(cs, i, o')))
           else Grown(cfg, Branch(Refitted(cs, i, o')), i + 1, o)
  }

  ghost predicate ChildPutAlong(cfg: Cfg, c: Child, k: int, d: seq<int>, reuse: bool, o: Outcome) {
    PutAlong(cfg, c.node, k, d, reuse, o)
  }

  function AsOutcome(r: PutResult): Outcome
    requires !r.PageFull?
  {
    match r
    case One(n, _, _) => Whole(n)
    case Two(l, sep, right, _, _) => Halves(l, At(sep), right)
  }

  /** The descent leads to the child that the separators name. */
  lemma {:induction false} IndexLeads(cs: seq<Child>, k: int)
    requires cs != []
    ensures Leads(cs, ChildIndex(cs, k), k)
  {
    if |cs| > 1 && AtLeast(k, cs[1].key) {
      IndexLeads(cs[1..], k);
      var i := ChildIndex(cs[1..], k);
      assert cs[1..][i] == cs[i + 1];
      if i + 1 < |cs[1..]| { assert cs[1..][i + 1] == cs[i + 2]; }
    }
  }

  /** The result on the children, by index. */
  lemma {:induction false} PutKidsAt(cfg: Cfg, cs: seq<Child>, k: int, d: seq<int>, reuse: bool)
    requires cs != []
    ensures var i := ChildIndex(cs, k);
            var r := PutNode(cfg, cs[i].node, k, d, reuse);
            PutKids(cfg, cs, k, d, reuse) == if r.PageFull? then KidsFull
              else KidsDone(Refitted(cs, i, AsOutcome(r)), if r.One? then 0 else i + 1, r.leaves, r.branches)
    decreases |cs|
  {
    hide PutNode;
    if |cs| == 1 || !AtLeast(k, cs[1].key) {
      PutFirstKid(cfg, cs, k, d, reuse);
    } else {
      PutKidsAt(cfg, cs[1..], k, d, reuse);
      var i := ChildIndex(cs[1..], k);
      var r := PutNode(cfg, cs[1..][i].node, k, d, reuse);
      if !r.PageFull? { RefittedTail(cs, i, AsOutcome(r)); }
    }
  }

  lemma RefittedTail(cs: seq<Child>, i: nat, o: Outcome)
    requires i + 1 < |cs|
    ensures Refitted(cs, i + 1, o) == [cs[0]] + Refitted(cs[1..], i, o)
  {
    assert cs[..i + 1] == [cs[0]] + cs[1..][..i];
    assert cs[1..][i + 1..] == cs[i + 2..];
  }

  lemma CutHere(cfg: Cfg, n: Node, at: nat, m: nat)
    requires Used(cfg, n) > cfg.pmax && 0 < m < Keys(n) && IsSplitPoint(Sizes(cfg, n), at, cfg.pmax, m)
    ensures Grown(cfg, n, at, CutAt(n, m))
  {
  }

  lemma AddedToLeaf(cfg: Cfg, es: seq<Item>, p: nat, it: Item)
    requires p <= |es| && !AddToLeaf(cfg, es, p, it).PageFull?
    ensures Grown(cfg, Leaf(Inserted(es, p, it)), p, AsOutcome(AddToLeaf(cfg, es, p, it)))
  {
    hide LeafSizes, LeafSize, Sum, SplitPoint, Inserted, IsSplitPoint, Grown;
    var all := Inserted(es, p, it);
    LeafSizesInserted(cfg, es, p, it);
    InsertedSum(LeafSizes(cfg, es), p, LeafSize(cfg, it));
    if AddToLeaf(cfg, es, p, it).Two? {
      var sizes := LeafSizes(cfg, all);
      SplitPointIs(sizes, p, cfg.pmax);
      CutHere(cfg, Leaf(all), p, SplitPoint(sizes, p, cfg.pmax));
    } else {
      FitsWhole(cfg, Leaf(all), p);
    }
  }

  lemma FitsWhole(cfg: Cfg, n: Node, at: nat)
    requires Used(cfg, n) <= cfg.pmax
    ensures Grown(cfg, n, at, Whole(n))
  {
  }

  lemma AddedToBranch(cfg: Cfg, cs: seq<Child>, newAt: nat, leaves: nat, branches: nat)
    requires 1 <= newAt < |cs| && !AddToBranch(cfg, cs, newAt, leaves, branches).PageFull?
    ensures Grown(cfg, Branch(cs), newAt, AsOutcome(AddToBranch(cfg, cs, newAt, leaves, branches)))
  {
    hide BranchSizes, Sum, SplitPoint, IsSplitPoint, Grown;
    if AddToBranch(cfg, cs, newAt, leaves, branches).Two? {
      var sizes := BranchSizes(cfg, cs);
      SplitPointIs(sizes, newAt, cfg.pmax);
      CutHere(cfg, Branch(cs), newAt, SplitPoint(sizes, newAt, cfg.pmax));
    } else {
      FitsWhole(cfg, Branch(cs), newAt);
    }
  }

  lemma PutOnLeaf(cfg: Cfg, es: seq<Item>, k: int, d: seq<int>, reuse: bool, lo: Sep, hi: High)
    requires ValidCfg(cfg) && Shape(cfg, Leaf(es), 0, lo, hi) && AtLeast(k, lo) && Under(k, hi)
    requires !PutLeaf(cfg, es, k, d, reuse).PageFull?
    ensures PutAlong(cfg, Leaf(es), k, d, reuse, AsOutcome(PutLeaf(cfg, es, k, d, reuse)))
  {
    hide LeafSizes, LeafSize, Sum, AddToLeaf, LeafOk, Shape, Pos, NodeMax, StoredAs, ValidCfg, Increasing, Upd, Grown,
         Inserted;
    ShapeLeaf(cfg, es, lo, hi);
    LeafIncreasing(cfg, es, lo, hi);
    StoredOnLeaf(cfg, es, k, d, reuse);
    var p, o := Pos(es, k), AsOutcome(PutLeaf(cfg, es, k, d, reuse));
    if p < |es| && es[p].key == k && InPlace(es[p], d, reuse) {
      var it := Item(k, d, es[p].big);
      UpdHit(es, p, it);
      OverwrittenFits(cfg, es, p, k, d, reuse);
      FitsWhole(cfg, Leaf(es[p := it]), p);
      assert LeafGrown(cfg, es, k, d, it.big, p, o);
    } else {
      var it := NewItem(cfg, k, d);
      UpdAtPos(es, it);
      var base := if p < |es| && es[p].key == k then es[..p] + es[p + 1..] else es;
      if p < |es| && es[p].key == k { InsertedAgain(es, p, it); }
      AddedToLeaf(cfg, base, p, it);
      NewAtPlace(base, p, it);
      assert LeafGrown(cfg, es, k, d, it.big, p, o);
    }
  }

  lemma NewAtPlace(s: seq<Item>, p: nat, it: Item)
    requires p <= |s|
    ensures |Inserted(s, p, it)| == |s| + 1 && Inserted(s, p, it)[p] == it
  {
  }

  lemma InsertedAgain(es: seq<Item>, p: nat, it: Item)
    requires p < |es|
    ensures Inserted(es[..p] + es[p + 1..], p, it) == es[..p] + [it] + es[p + 1..]
  {
  }

  lemma OverwrittenFits(cfg: Cfg, es: seq<Item>, p: nat, k: int, d: seq<int>, reuse: bool)
    requires p < |es| && Sum(LeafSizes(cfg, es)) <= cfg.pmax && es[p].key == k && InPlace(es[p], d, reuse)
    ensures Used(cfg, Leaf(es[p := Item(k, d, es[p].big)])) <= cfg.pmax
  {
    hide LeafSize, Sum, InPlace;
    var it := Item(k, d, es[p].big);
    InPlaceSize(cfg, es[p], d, reuse);
    assert LeafSizes(cfg, es[p := it]) == LeafSizes(cfg, es);
  }

  lemma InPlaceSize(cfg: Cfg, it: Item, d: seq<int>, reuse: bool)
    requires InPlace(it, d, reuse)
    ensures LeafSize(cfg, Item(it.key, d, it.big)) == LeafSize(cfg, it)
  {
  }

  /** Every page on the path of the key becomes what the law says. */
  lemma {:induction false} PutNodeAlong(cfg: Cfg, n: Node, k: int, d: seq<int>, reuse: bool, h: nat, lo: Sep, hi: High)
    requires ValidCfg(cfg) && Full(n) && Shape(cfg, n, h, lo, hi) && AtLeast(k, lo) && Under(k, hi)
    requires !PutNode(cfg, n, k, d, reuse).PageFull?
    ensures PutAlong(cfg, n, k, d, reuse, AsOutcome(PutNode(cfg, n, k, d, reuse)))
    decreases h
  {
    hide Kids, PutLeaf, LeafSizes, BranchSizes, Sum, AddToBranch, Grown, ValidCfg, AtLeast, Under, PutKids, LoAt, HiAt,
         Refitted, StoredAs, LeafGrown;
    match n {
      case Leaf(es) => PutOnLeaf(cfg, es, k, d, reuse, lo, hi);
      case Branch(cs) =>
        var i := ChildIndex(cs, k);
        PutKidsAt(cfg, cs, k, d, reuse);
        ChildIndexBounds(cfg, cs, k, h - 1, lo, hi);
        ChildBounds(cfg, cs, i, h - 1, lo, hi);
        PutNodeAlong(cfg, cs[i].node, k, d, reuse, h - 1, LoAt(cs, i, lo), HiAt(cs, i + 1, hi));
        PutOnBranch(cfg, cs, i, k, d, reuse);
    }
  }

  lemma PutOnBranch(cfg: Cfg, cs: seq<Child>, i: nat, k: int, d: seq<int>, reuse: bool)
    requires cs != [] && i == ChildIndex(cs, k) && !PutNode(cfg, Branch(cs), k, d, reuse).PageFull?
    requires !PutNode(cfg, cs[i].node, k, d, reuse).PageFull?
    requires PutAlong(cfg, cs[i].node, k, d, reuse, AsOutcome(PutNode(cfg, cs[i].node, k, d, reuse)))
    ensures PutAlong(cfg, Branch(cs), k, d, reuse, AsOutcome(PutNode(cfg, Branch(cs), k, d, reuse)))
  {
    hide Leads, PutKids, PutLeaf, AddToBranch, Grown, BranchSizes, Sum, PutAlong, Refitted;
    IndexLeads(cs, k);
    PutKidsAt(cfg, cs, k, d, reuse);
    var r := PutNode(cfg, cs[i].node, k, d, reuse);
    var o := AsOutcome(r);
    assert ChildPutAlong(cfg, cs[i], k, d, reuse, o);
    if o.Halves? {
      RefittedLength(cs, i, o);
      AddedToBranch(cfg, Refitted(cs, i, o), i + 1, r.leaves, r.branches);
    }
    PutVia(cfg, cs, i, k, d, reuse, o, AsOutcome(PutNode(cfg, Branch(cs), k, d, reuse)));
  }

  lemma RefittedLength(cs: seq<Child>, i: nat, o: Outcome)
    requires i < |cs|
    ensures |Refitted(cs, i, o)| == |cs| + if o.Halves? then 1 else 0
  {
  }

  lemma PutVia(cfg: Cfg, cs: seq<Child>, i: nat, k: int, d: seq<int>, reuse: bool, x: Outcome, o: Outcome)
    requires i < |cs| && Leads(cs, i, k) && ChildPutAlong(cfg, cs[i], k, d, reuse, x)
    requires if x.Whole? then o == Whole(Branch(Refitted(cs, i, x)))
             else Grown(cfg, Branch(Refitted(cs, i, x)), i + 1, o)
    ensures PutAlong(cfg, Branch(cs), k, d, reuse, o)
  {
    hide Leads, Grown, Refitted, ChildPutAlong;
  }

  // ---------------------------------------------------------------- delete

  /** Under a quarter of the page in use, or under the least number of keys: one on a leaf, two on a branch page. */
  ghost predicate Poor(cfg: Cfg, n: Node) {
    4 * Used(cfg, n) < cfg.pmax || Keys(n) < if n.Leaf? then 1 else 2
  }

  /** A quarter of the page or more in use, and above the least number of keys. */
  ghost predicate Spares(cfg: Cfg, n: Node) {
    4 * Used(cfg, n) >= cfg.pmax && Keys(n) > if n.Leaf? then 1 else 2
  }

  function FirstKey(n: Node): Sep {
    if Items(n) == [] then Blank else At(Items(n)[0].key)
  }

  /** A branch page's nodes, the first one under the first key below it instead of the blank. */
  function Keyed(cs: seq<Child>): seq<Child> {
    if cs == [] then [] else [Child(FirstKey(cs[0].node), cs[0].node)] + cs[1..]
  }

  /** All nodes of two neighbours on one page. */
  function BothOn(l: Node, r: Node): Node {
    match (l, r)
    case (Leaf(a), Leaf(b)) => Leaf(a + b)
    case (Branch(a), Branch(b)) => Branch(a + Keyed(b))
    case (_, _) => l
  }

  /** Children j and j + 1 are now o. */
  function Paired(cs: seq<Child>, j: nat, o: Outcome): seq<Child>
    requires j + 2 <= |cs|
  {
    cs[..j] + (if o.Whole? then [Child(cs[j].key, o.n)] else [Child(cs[j].key, o.l), Child(o.sep, o.r)]) + cs[j + 2..]
  }

  /** The pair j, j + 1, of which the left one (leftPoor) or the right one is poor, on one page, or with one node
      moved to the poor page. */
  ghost predicate Evened(cfg: Cfg, cs: seq<Child>, j: nat, leftPoor: bool, g: nat, n': Node, again: bool, f: nat)
    requires j + 2 <= |cs|
  {
    var l, r := cs[j].node, cs[j + 1].node;
    var all := BothOn(l, r);
    if Spares(cfg, if leftPoor then r else l) then
      var at: int := if leftPoor then Keys(l) + 1 else Keys(l) - 1;
      0 < at < Keys(all) && n' == Branch(Paired(cs, j, CutAt(all, at))) && !again && f == g
    else n' == Branch(Paired(cs, j, Whole(all))) && again && f == g + 1
  }

  /** The parent n' of child i, which has become q. A poor child takes a node from its neighbour, the right one for the
      first child and else the left one; a neighbour that has none to spare is merged with it. Only then the parent is
      looked at as well (again). g and f count the pages freed below q and n'. */
  ghost predicate Settled(cfg: Cfg, cs: seq<Child>, i: nat, q: Node, look: bool, g: nat, n': Node, again: bool,
                          f: nat) {
    i < |cs| &&
    var kept := cs[i := Child(cs[i].key, q)];
    if !look || !Poor(cfg, q) || |cs| < 2 then n' == Branch(kept) && !again && f == g
    else Evened(cfg, kept, if i == 0 then 0 else i - 1, i == 0, g, n', again, f)
  }

  /** The pages on the path of k after its entry is removed; f of them are gone. */
  ghost predicate DelAlong(cfg: Cfg, n: Node, k: int, n': Node, again: bool, f: nat) {
    match n
    case Leaf(es) => n' == Leaf(Del(es, k)) && again && f == 0
    case Branch(cs) =>
      exists i: nat, q, look, g: nat ::
        && Leads(cs, i, k) && ChildDelAlong(cfg, cs[i], k, q, look, g)
        && Settled(cfg, cs, i, q, look, g, n', again, f)
  }

  ghost predicate ChildDelAlong(cfg: Cfg, c: Child, k: int, n': Node, again: bool, f: nat) {
    DelAlong(cfg, c.node, k, n', again, f)
  }

  lemma PoorIsShort(cfg: Cfg, n: Node)
    requires cfg.pmax > 0
    ensures Poor(cfg, n) <==> Short(cfg, n)
    ensures Spares(cfg, n) <==> Rich(cfg, n)
  {
    hide Used, Fill;
    FillMeans(cfg, n);
  }

  lemma KeyedIsUnblanked(cfg: Cfg, b: seq<Child>, h: nat, lo: Sep, hi: High)
    requires b != [] && Kids(cfg, b, h, lo, hi)
    ensures Keyed(b) == Unblanked(b)
  {
    hide Shape, Items, Lowest;
    LowestIsFirst(cfg, b[0].node, h, lo, FirstHigh(b, hi));
  }

  function RepairOutcome(p: PairResult): Outcome
    requires !p.Stuck?
  {
    if p.Moved? then Halves(p.left, p.sep, p.right) else Whole(p.n)
  }

  /** The repair of a pair is what the law says. */
  ghost predicate PairEvened(cfg: Cfg, l: Node, r: Node, leftPoor: bool, p: PairResult) {
    var all := BothOn(l, r);
    !p.Stuck? &&
    if Spares(cfg, if leftPoor then r else l) then
      var at: int := if leftPoor then Keys(l) + 1 else Keys(l) - 1;
      0 < at < Keys(all) && p.Moved? && RepairOutcome(p) == CutAt(all, at)
    else p == Merged(all)
  }

  lemma RepairPairIs(cfg: Cfg, l: Node, s: int, r: Node, leftPoor: bool, h: nat, lo: Sep, hi: High)
    requires ValidCfg(cfg) && cfg.pmax > 0 && PairReady(cfg, l, s, r, leftPoor, h, lo, hi)
    ensures PairEvened(cfg, l, r, leftPoor, RepairPair(cfg, l, r, leftPoor))
  {
    hide Used, Fill, Kids, PairOk, MoveLeft, MoveRight, Merge, PairReady, ValidCfg, Unblanked, Keyed, Spares;
    SameKind(cfg, l, s, r, leftPoor, h, lo, hi);
    RepairPairOk(cfg, l, s, r, leftPoor, h, lo, hi);
    RepairedThere(cfg, l, r, RepairPair(cfg, l, r, leftPoor), h, lo, hi);
    PoorIsShort(cfg, if leftPoor then r else l);
    match (l, r) {
      case (Leaf(a), Leaf(b)) => LeavesEvened(cfg, a, b, leftPoor);
      case (Branch(a), Branch(b)) =>
        KeyedIsUnblanked(cfg, b, h - 1, At(s), hi);
        BranchesEvened(cfg, a, b, leftPoor);
      case (_, _) =>
    }
  }

  lemma RepairedThere(cfg: Cfg, l: Node, r: Node, p: PairResult, h: nat, lo: Sep, hi: High)
    requires PairOk(cfg, l, r, p, h, lo, hi)
    ensures !p.Stuck?
  {
  }

  lemma LeavesEvened(cfg: Cfg, a: seq<Item>, b: seq<Item>, leftPoor: bool)
    requires cfg.pmax > 0 && !RepairPair(cfg, Leaf(a), Leaf(b), leftPoor).Stuck?
    requires var other := Leaf(if leftPoor then b else a); Spares(cfg, other) <==> Rich(cfg, other)
    ensures PairEvened(cfg, Leaf(a), Leaf(b), leftPoor, RepairPair(cfg, Leaf(a), Leaf(b), leftPoor))
  {
    hide Used, Fill, LeafSize;
    var all := a + b;
    if leftPoor {
      if |b| > 1 { assert all[..|a| + 1] == a + [b[0]] && all[|a| + 1..] == b[1..]; }
    } else if |a| > 1 {
      assert all[..|a| - 1] == a[..|a| - 1] && all[|a| - 1..] == [a[|a| - 1]] + b;
    }
  }

  lemma BranchesEvened(cfg: Cfg, a: seq<Child>, b: seq<Child>, leftPoor: bool)
    requires cfg.pmax > 0 && !RepairPair(cfg, Branch(a), Branch(b), leftPoor).Stuck? && b != []
    requires var other := Branch(if leftPoor then b else a); Spares(cfg, other) <==> Rich(cfg, other)
    requires Keyed(b) == Unblanked(b)
    ensures PairEvened(cfg, Branch(a), Branch(b), leftPoor, RepairPair(cfg, Branch(a), Branch(b), leftPoor))
  {
    hide Used, Fill, BranchSize, Keyed, ChildLowest;
    var all := a + Unblanked(b);
    if leftPoor {
      if |b| > 2 {
        assert all[..|a| + 1] == a + [Unblanked(b)[0]] && all[|a| + 1..] == b[1..] && all[|a| + 2..] == b[1..][1..];
      }
    } else if |a| > 2 {
      var m := |a| - 1;
      assert all[..m] == a[..m] && all[m..] == [a[m]] + Unblanked(b) && all[m + 1..] == Unblanked(b);
    }
  }

  /** Rebalancing child i gives the parent that the law says. */
  lemma RebalanceSettles(cfg: Cfg, cs: seq<Child>, i: nat, q: Node, look: bool, k: int, leaves: nat, branches: nat,
                         h: nat, lo: Sep, hi: High)
    requires ValidCfg(cfg) && cfg.pmax > 0 && i < |cs| && |cs| >= 2 && Kids(cfg, cs, h, lo, hi)
    requires AtLeast(k, LoAt(cs, i, lo)) && Under(k, HiAt(cs, i + 1, hi))
    requires DelOk(cfg, cs[i].node, Done(q, look, leaves, branches), k, h, LoAt(cs, i, lo), HiAt(cs, i + 1, hi))
    ensures var r := Rebalance(cfg, cs, i, q, look, leaves, branches);
            r.KidsDeleted? && Settled(cfg, cs, i, q, look, leaves + branches, Branch(r.cs), r.merged,
                                      r.leaves + r.branches)
  {
    hide Kids, Shape, Flat, Items, Del, Leaves, Branches, KidLeaves, KidBranches, AtLeast, Under, Full, Fill, PairOk,
         RepairPair, Used, ValidCfg, Present, Poor, PairEvened;
    PoorIsShort(cfg, q);
    if look && Short(cfg, q) {
      var j := if i == 0 then 0 else i - 1;
      var l, r := if i == 0 then q else cs[i - 1].node, if i == 0 then cs[1].node else q;
      var s := cs[j + 1].key;
      PairBounds(cfg, cs, j, h, lo, hi);
      ShortUse(cfg, q, h, LoAt(cs, i, lo), HiAt(cs, i + 1, hi));
      BranchNotEmpty(cfg, q, h, LoAt(cs, i, lo), HiAt(cs, i + 1, hi));
      RepairPairIs(cfg, l, s.k, r, i == 0, h, LoAt(cs, j, lo), HiAt(cs, j + 2, hi));
      PairSettles(cfg, cs, i, q, leaves, branches);
    }
  }

  lemma PairSettles(cfg: Cfg, cs: seq<Child>, i: nat, q: Node, leaves: nat, branches: nat)
    requires cfg.pmax > 0 && i < |cs| && |cs| >= 2 && Short(cfg, q)
    requires var l, r := if i == 0 then q else cs[i - 1].node, if i == 0 then cs[1].node else q;
             PairEvened(cfg, l, r, i == 0, RepairPair(cfg, l, r, i == 0))
    ensures var r := Rebalance(cfg, cs, i, q, true, leaves, branches);
            r.KidsDeleted? && Evened(cfg, cs[i := Child(cs[i].key, q)], if i == 0 then 0 else i - 1, i == 0,
                                     leaves + branches, Branch(r.cs), r.merged, r.leaves + r.branches)
  {
    hide Fill, RepairPair, Spares, BothOn, CutAt;
    var j := if i == 0 then 0 else i - 1;
    var kept := cs[i := Child(cs[i].key, q)];
    assert kept[..j] == cs[..j] && kept[j + 2..] == cs[j + 2..];
  }

  lemma {:induction false} DelNodeAlong(cfg: Cfg, n: Node, k: int, h: nat, lo: Sep, hi: High)
    requires ValidCfg(cfg) && cfg.pmax > 0 && Full(n) && Shape(cfg, n, h, lo, hi) && AtLeast(k, lo) && Under(k, hi)
    ensures var r := DelNode(cfg, n, k);
            r.Done? ==> DelAlong(cfg, n, k, r.n, r.check, r.leaves + r.branches)
    decreases h
  {
    hide Kids, Flat, Items, Del, KidLeaves, KidBranches, AtLeast, Under, LoAt, HiAt, DelOk, KidsDelOk, Present,
         FixedKeys, ValidCfg, Pos, DelAlong, Rebalance, Sum, BranchSizes;
    match n {
      case Leaf(es) => LeafDeleted(cfg, es, k, lo, hi);
      case Branch(cs) =>
        var i := ChildIndex(cs, k);
        ChildIndexBounds(cfg, cs, k, h - 1, lo, hi);
        ChildBounds(cfg, cs, i, h - 1, lo, hi);
        DelNodeAlong(cfg, cs[i].node, k, h - 1, LoAt(cs, i, lo), HiAt(cs, i + 1, hi));
        DelNodeOk(cfg, cs[i].node, k, h - 1, LoAt(cs, i, lo), HiAt(cs, i + 1, hi));
        BranchDeleted(cfg, cs, i, k, h, lo, hi);
    }
  }

  lemma LeafDeleted(cfg: Cfg, es: seq<Item>, k: int, lo: Sep, hi: High)
    requires cfg.pmax > 0 && Shape(cfg, Leaf(es), 0, lo, hi)
    ensures var r := DelNode(cfg, Leaf(es), k);
            r.Done? ==> DelAlong(cfg, Leaf(es), k, r.n, r.check, r.leaves + r.branches)
  {
    hide LeafSizes, LeafSize, Sum, Increasing, Within, Pos, Del, Present;
    DelAtPos(es, k);
  }

  lemma BranchDeleted(cfg: Cfg, cs: seq<Child>, i: nat, k: int, h: nat, lo: Sep, hi: High)
    requires ValidCfg(cfg) && cfg.pmax > 0 && |cs| >= 2 && Shape(cfg, Branch(cs), h, lo, hi) && i == ChildIndex(cs, k)
    requires AtLeast(k, LoAt(cs, i, lo)) && Under(k, HiAt(cs, i + 1, hi)) && h > 0
    requires var r := DelNode(cfg, cs[i].node, k);
             && DelOk(cfg, cs[i].node, r, k, h - 1, LoAt(cs, i, lo), HiAt(cs, i + 1, hi))
             && (r.Done? ==> DelAlong(cfg, cs[i].node, k, r.n, r.check, r.leaves + r.branches))
    ensures var r := DelNode(cfg, Branch(cs), k);
            r.Done? ==> DelAlong(cfg, Branch(cs), k, r.n, r.check, r.leaves + r.branches)
  {
    hide Kids, AtLeast, Under, LoAt, HiAt, DelOk, ValidCfg, Rebalance, Sum, BranchSizes, Shape, Settled, Leads;
    BranchFacts(cfg, cs, h, lo, hi);
    IndexLeads(cs, k);
    var r := DelNode(cfg, cs[i].node, k);
    assert DelChild(cfg, cs[i], k) == r;
    if r.Done? {
      RebalanceSettles(cfg, cs, i, r.n, r.check, k, r.leaves, r.branches, h - 1, lo, hi);
      assert ChildDelAlong(cfg, cs[i], k, r.n, r.check, r.leaves + r.branches);
    }
  }

  // ---------------------------------------------------------------- the laws leave no choice

  lemma LeadsOne(cfg: Cfg, cs: seq<Child>, i: nat, j: nat, k: int, h: nat, lo: Sep, hi: High)
    requires Kids(cfg, cs, h, lo, hi) && Leads(cs, i, k) && Leads(cs, j, k) && i <= j
    ensures i == j
  {
    hide Kids;
    if i < j {
      KidsCut(cfg, cs, i + 1, h, lo, hi);
      if i + 1 < j {
        KidsCut(cfg, cs[i + 1..], j - i - 1, h, cs[i + 1].key, hi);
      }
    }
  }

  lemma {:induction false} UpdAbove(s: seq<Item>, it: Item, m: int)
    requires it.key > m && forall i :: 0 <= i < |s| ==> s[i].key > m
    ensures forall i :: 0 <= i < |Upd(s, it)| ==> Upd(s, it)[i].key > m
  {
    if s != [] && s[0].key < it.key { UpdAbove(s[1..], it, m); }
  }

  lemma {:induction false} UpdIncreasing(s: seq<Item>, it: Item)
    requires Increasing(s)
    ensures Increasing(Upd(s, it))
  {
    if s != [] && s[0].key < it.key {
      UpdIncreasing(s[1..], it);
      UpdAbove(s[1..], it, s[0].key);
    }
  }

  lemma GrownOne(cfg: Cfg, n: Node, at: nat, o: Outcome, o': Outcome)
    requires Grown(cfg, n, at, o) && Grown(cfg, n, at, o')
    ensures o == o'
  {
    hide Used, Sizes, IsSplitPoint, CutAt;
    if Used(cfg, n) > cfg.pmax {
      var m :| 0 < m < Keys(n) && IsSplitPoint(Sizes(cfg, n), at, cfg.pmax, m) && o == CutAt(n, m);
      var m' :| 0 < m' < Keys(n) && IsSplitPoint(Sizes(cfg, n), at, cfg.pmax, m') && o' == CutAt(n, m');
      SplitPointOne(Sizes(cfg, n), at, cfg.pmax, m, m');
    }
  }

  lemma LeafPutOne(cfg: Cfg, es: seq<Item>, k: int, d: seq<int>, reuse: bool, o: Outcome, o': Outcome)
    requires Increasing(es)
    requires PutAlong(cfg, Leaf(es), k, d, reuse, o) && PutAlong(cfg, Leaf(es), k, d, reuse, o')
    ensures o == o'
  {
    hide Grown, NodeMax, Upd;
    var b, at: nat :| StoredAs(cfg, es, k, d, reuse, b) && LeafGrown(cfg, es, k, d, b, at, o);
    var b', at': nat :| StoredAs(cfg, es, k, d, reuse, b') && LeafGrown(cfg, es, k, d, b', at', o');
    assert b == b';
    UpdIncreasing(es, Item(k, d, b));
    assert at == at';
    GrownOne(cfg, Leaf(Upd(es, Item(k, d, b))), at, o, o');
  }

  /** There is one outcome of a put that meets the law. */
  lemma {:induction false} PutAlongOne(cfg: Cfg, n: Node, k: int, d: seq<int>, reuse: bool, o: Outcome, o': Outcome,
                                       h: nat, lo: Sep, hi: High)
    requires Shape(cfg, n, h, lo, hi) && PutAlong(cfg, n, k, d, reuse, o) && PutAlong(cfg, n, k, d, reuse, o')
    ensures o == o'
    decreases h
  {
    hide Kids, Grown, Leads, Refitted, AtLeast, LoAt, HiAt, LeafSize, LeafSizes, BranchSizes, Sum, PutAlong;
    match n {
      case Leaf(es) => LeafPutOne(cfg, es, k, d, reuse, o, o');
      case Branch(cs) =>
        var i, x := ViaChild(cfg, cs, k, d, reuse, o);
        var j, y := ViaChild(cfg, cs, k, d, reuse, o');
        if i <= j { LeadsOne(cfg, cs, i, j, k, h - 1, lo, hi); } else { LeadsOne(cfg, cs, j, i, k, h - 1, lo, hi); }
        ChildBounds(cfg, cs, i, h - 1, lo, hi);
        PutAlongOne(cfg, cs[i].node, k, d, reuse, x, y, h - 1, LoAt(cs, i, lo), HiAt(cs, i + 1, hi));
        if x.Halves? { GrownOne(cfg, Branch(Refitted(cs, i, x)), i + 1, o, o'); }
    }
  }

  lemma ViaChild(cfg: Cfg, cs: seq<Child>, k: int, d: seq<int>, reuse: bool, o: Outcome) returns (i: nat, x: Outcome)
    requires PutAlong(cfg, Branch(cs), k, d, reuse, o)
    ensures i < |cs| && Leads(cs, i, k) && PutAlong(cfg, cs[i].node, k, d, reuse, x)
    ensures if x.Whole? then o == Whole(Branch(Refitted(cs, i, x)))
            else Grown(cfg, Branch(Refitted(cs, i, x)), i + 1, o)
  {
    hide Grown, Refitted, AtLeast;
    i, x :| Leads(cs, i, k) && ChildPutAlong(cfg, cs[i], k, d, reuse, x) &&
      if x.Whole? then o == Whole(Branch(Refitted(cs, i, x))) else Grown(cfg, Branch(Refitted(cs, i, x)), i + 1, o);
  }

  /** There is one outcome of a delete that meets the law. */
  lemma {:induction false} DelAlongOne(cfg: Cfg, n: Node, k: int, p: Node, x: bool, f: nat, p': Node, x': bool, f': nat,
                                       h: nat, lo: Sep, hi: High)
    requires Shape(cfg, n, h, lo, hi) && DelAlong(cfg, n, k, p, x, f) && DelAlong(cfg, n, k, p', x', f')
    ensures p == p' && x == x' && f == f'
    decreases h
  {
    hide Kids, AtLeast, LoAt, HiAt, LeafSize, LeafSizes, BranchSizes, Sum, Settled, Del;
    match n {
      case Leaf(es) =>
      case Branch(cs) =>
        var i: nat, q, l, g: nat :| Leads(cs, i, k) && ChildDelAlong(cfg, cs[i], k, q, l, g) &&
          Settled(cfg, cs, i, q, l, g, p, x, f);
        var j: nat, q', l', g': nat :| Leads(cs, j, k) && ChildDelAlong(cfg, cs[j], k, q', l', g') &&
          Settled(cfg, cs, j, q', l', g', p', x', f');
        if i <= j { LeadsOne(cfg, cs, i, j, k, h - 1, lo, hi); } else { LeadsOne(cfg, cs, j, i, k, h - 1, lo, hi); }
        ChildBounds(cfg, cs, i, h - 1, lo, hi);
        DelAlongOne(cfg, cs[i].node, k, q, l, g, q', l', g', h - 1, LoAt(cs, i, lo), HiAt(cs, i + 1, hi));
        SettledOne(cfg, cs, i, q, l, g, p, x, f, p', x', f');
    }
  }

  lemma SettledOne(cfg: Cfg, cs: seq<Child>, i: nat, q: Node, l: bool, g: nat, p: Node, x: bool, f: nat, p': Node,
                   x': bool, f': nat)
    requires Settled(cfg, cs, i, q, l, g, p, x, f) && Settled(cfg, cs, i, q, l, g, p', x', f')
    ensures p == p' && x == x' && f == f'
  {
    hide Poor, Spares, BothOn, Paired, CutAt;
  }

  // ---------------------------------------------------------------- the whole database

  /** The root page after the put. */
  function NewTop(o: Outcome): Node {
    match o
    case Whole(n) => n
    case Halves(l, sep, r) => Branch([Child(Blank, l), Child(sep, r)])
  }

  /** A put that is not refused makes of the pages on the key's path exactly what the law says, and puts a new root
      above the halves of the old one. */
  lemma PutExactly(cfg: Cfg, db: Db, k: int, d: seq<int>, reuse: bool) returns (o: Outcome)
    requires ValidCfg(cfg) && DbOk(cfg, db) && db.root != [] && Put(cfg, db, k, d, reuse).Ok?
    ensures forall o' :: PutAlong(cfg, db.root[0], k, d, reuse, o') <==> o' == o
    ensures var db' := Put(cfg, db, k, d, reuse).db;
            db'.root == [NewTop(o)] && db'.depth == db.depth + if o.Halves? then 1 else 0
  {
    hide Shape, Items, Full, Leaves, Branches, ValidCfg, HasKey, PutNode, PutAlong;
    PutNodeAlong(cfg, db.root[0], k, d, reuse, db.depth - 1, Blank, Top);
    o := AsOutcome(PutNode(cfg, db.root[0], k, d, reuse));
    forall o' | PutAlong(cfg, db.root[0], k, d, reuse, o') ensures o' == o {
      PutAlongOne(cfg, db.root[0], k, d, reuse, o, o', db.depth - 1, Blank, Top);
    }
  }

  lemma RootCounts(cfg: Cfg, n: Node, r: DelResult, k: int, h: nat)
    requires r.Done? && DelOk(cfg, n, r, k, h, Blank, Top)
    ensures Leaves(r.n) + r.leaves == Leaves(n) && Branches(r.n) + r.branches == Branches(n)
    ensures !r.check ==> Full(r.n)
    ensures Keys(r.n) == 0 ==> Leaves(r.n) == 1 && Branches(r.n) == 0
    ensures r.n.Branch? && Keys(r.n) == 1 ==> Branches(r.n) > 0
  {
    RootPage(cfg, r.n, h);
  }

  lemma NotItself(n: Node)
    requires n.Branch? && |n.cs| == 1
    ensures n.cs[0].node != n
  {
  }

  /** The root page after the delete: gone when it is empty, its only child when there is just one, else kept. */
  function Collapsed(n: Node): seq<Node> {
    if Keys(n) == 0 then [] else if n.Branch? && |n.cs| == 1 then [n.cs[0].node] else [n]
  }

  /** A delete that finds its key makes of the pages on the key's path exactly what the law says: wherever a page is
      left poor and its neighbour has nothing to spare, the two are merged, and the page count falls by one for each
      merge and one for a root that is emptied or collapsed. */
  lemma DeleteExactly(cfg: Cfg, db: Db, k: int) returns (n: Node, again: bool, f: nat)
    requires ValidCfg(cfg) && DbOk(cfg, db) && Delete(cfg, db, k).Deleted?
    ensures db.root != []
    ensures forall p, x, g: nat :: DelAlong(cfg, db.root[0], k, p, x, g) <==> p == n && x == again && g == f
    ensures var db' := Delete(cfg, db, k).db;
            && db'.root == Collapsed(n)
            && db'.leafPages + db'.branchPages + f + (if db'.root == [n] then 0 else 1) == db.leafPages + db.branchPages
            && db'.depth == (if Keys(n) == 0 then 0 else if db'.root == [n] then db.depth else db.depth - 1)
  {
    hide Shape, Items, Leaves, Branches, DelNode, DelAlong, DelOk, Fill;
    DelNodeAlong(cfg, db.root[0], k, db.depth - 1, Blank, Top);
    DelNodeOk(cfg, db.root[0], k, db.depth - 1, Blank, Top);
    var r := DelNode(cfg, db.root[0], k);
    n, again, f := r.n, r.check, r.leaves + r.branches;
    forall p, x, g: nat | DelAlong(cfg, db.root[0], k, p, x, g) ensures p == n && x == again && g == f {
      DelAlongOne(cfg, db.root[0], k, n, again, f, p, x, g, db.depth - 1, Blank, Top);
    }
    RootCounts(cfg, db.root[0], r, k, db.depth - 1);
    if n.Branch? && |n.cs| == 1 { NotItself(n); }
  }
}
