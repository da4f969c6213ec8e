/** mdb_put: search, insert or overwrite, and split up to a new root; refines update of an ordered map. */
module BTreePut {
  import opened Seqs
  import opened Split
  import opened BTree

  /** The outcome on one page: refused with MDB_PAGE_FULL, changed in place, or split in two with a separator.
      Both counters say how many pages were created. */
  datatype PutResult =
    | PageFull
    | One(n: Node, leaves: nat, branches: nat)
    | Two(left: Node, sep: int, right: Node, leaves: nat, branches: nat)

  /** The outcome on a branch page's children; newAt is the index of a new child, 0 when there is none. */
  datatype KidsResult =
    | KidsFull
    | KidsDone(cs: seq<Child>, newAt: nat, leaves: nat, branches: nat)

  /** First position whose key is >= k. */
  function Pos(es: seq<Item>, k: int): (p: nat)
    ensures p <= |es|
    ensures forall i :: 0 <= i < p ==> es[i].key < k
    ensures p < |es| ==> es[p].key >= k
  {
    if es == [] || es[0].key >= k then 0
    else
      var p := Pos(es[1..], k);
      assert forall i :: 1 <= i < p + 1 ==> es[i] == es[1..][i - 1];
      p + 1
  }

  /** The leaf with the new node at position p: added if there is room, else split by mdb_page_split. */
  function AddToLeaf(cfg: Cfg, es: seq<Item>, p: nat, it: Item): PutResult
    requires p <= |es|
  {
    var all := Inserted(es, p, it);
    var sizes := LeafSizes(cfg, all);
    if cfg.pmax - Sum(LeafSizes(cfg, es)) >= LeafSize(cfg, it) then One(Leaf(all), 0, 0)
    else if |all| < 3 then PageFull
    else
      var sp := SplitPoint(sizes, p, cfg.pmax);
      if !SplitFits(sizes, sp, cfg.pmax, false) then PageFull
      else Two(Leaf(all[..sp]), all[sp].key, Leaf(all[sp..]), 1, 0)
  }

  /** Can the data be overwritten where it is? reuse: the old overflow run is dirty and long enough. */
  predicate InPlace(it: Item, d: seq<int>, reuse: bool) {
    if it.big then reuse else |d| == |it.data|
  }

  function PutLeaf(cfg: Cfg, es: seq<Item>, k: int, d: seq<int>, reuse: bool): PutResult {
    var p := Pos(es, k);
    if p < |es| && es[p].key == k then
      if InPlace(es[p], d, reuse) then One(Leaf(es[p := Item(k, d, es[p].big)]), 0, 0)
      else AddToLeaf(cfg, es[..p] + es[p + 1..], p, NewItem(cfg, k, d))
    else AddToLeaf(cfg, es, p, NewItem(cfg, k, d))
  }

  /** A branch page after its child at newAt - 1 was split: room for the separator, or split as well. */
  function AddToBranch(cfg: Cfg, cs: seq<Child>, newAt: nat, leaves: nat, branches: nat): PutResult
    requires 1 <= newAt < |cs|
  {
    var sizes := BranchSizes(cfg, cs);
    if Sum(sizes) <= cfg.pmax then One(Branch(cs), leaves, branches)
    else if |cs| < 3 then PageFull
    else
      var sp := SplitPoint(sizes, newAt, cfg.pmax);
      if !(0 < sp < |cs|) || !cs[sp].key.At? || !SplitFits(sizes, sp, cfg.pmax, true) then PageFull
      else Two(Branch(cs[..sp]), cs[sp].key.k, Branch([Child(Blank, cs[sp].node)] + cs[sp + 1..]), leaves, branches + 1)
  }

  function PutNode(cfg: Cfg, n: Node, k: int, d: seq<int>, reuse: bool): PutResult {
    match n
    case Leaf(es) => PutLeaf(cfg, es, k, d, reuse)
    case Branch(cs) =>
      match PutKids(cfg, cs, k, d, reuse)
      case KidsFull => PageFull
      case KidsDone(cs', newAt, leaves, branches) =>
        if 1 <= newAt < |cs'| then AddToBranch(cfg, cs', newAt, leaves, branches)
        else One(Branch(cs'), leaves, branches)
  }

  function PutChild(cfg: Cfg, c: Child, k: int, d: seq<int>, reuse: bool): KidsResult {
    match PutNode(cfg, c.node, k, d, reuse)
    case PageFull => KidsFull
    case One(n, leaves, branches) => KidsDone([Child(c.key, n)], 0, leaves, branches)
    case Two(l, sep, r, leaves, branches) => KidsDone([Child(c.key, l), Child(At(sep), r)], 1, leaves, branches)
  }

  /** Descend into the last child whose separator is <= k. */
  function PutKids(cfg: Cfg, cs: seq<Child>, k: int, d: seq<int>, reuse: bool): KidsResult {
    if cs == [] then KidsFull
    else if |cs| == 1 || !AtLeast(k, cs[1].key) then
      match PutChild(cfg, cs[0], k, d, reuse)
      case KidsFull => KidsFull
      case KidsDone(first, newAt, leaves, branches) => KidsDone(first + cs[1..], newAt, leaves, branches)
    else
      match PutKids(cfg, cs[1..], k, d, reuse)
      case KidsFull => KidsFull
      case KidsDone(rest, newAt, leaves, branches) =>
        KidsDone([cs[0]] + rest, if newAt == 0 then 0 else newAt + 1, leaves, branches)
  }

  /** The database record: root page if any, and the md_* counters. */
  datatype Db = Db(root: seq<Node>, entries: nat, depth: nat, leafPages: nat, branchPages: nat)

  datatype DbResult = Failed | Ok(db: Db)

  /** mdb_cursor_put on the whole database: a first leaf, a change below the root, or a new root. */
  function Put(cfg: Cfg, db: Db, k: int, d: seq<int>, reuse: bool): DbResult {
    if db.root == [] then
      Ok(Db([Leaf([NewItem(cfg, k, d)])], db.entries + 1, db.depth + 1, db.leafPages + 1, db.branchPages))
    else
      var root := db.root[0];
      var entries := if HasKey(root, k) then db.entries else db.entries + 1;
      match PutNode(cfg, root, k, d, reuse)
      case PageFull => Failed
      case One(n, leaves, branches) => Ok(Db([n], entries, db.depth, db.leafPages + leaves, db.branchPages + branches))
      case Two(l, sep, r, leaves, branches) =>
        var top := Branch([Child(Blank, l), Child(At(sep), r)]);
        Ok(Db([top], entries, db.depth + 1, db.leafPages + leaves, db.branchPages + branches + 1))
  }

  /** What the search on the way down finds: is the key there? */
  function HasKey(n: Node, k: int): bool {
    match n
    case Leaf(es) => Pos(es, k) < |es| && es[Pos(es, k)].key == k
    case Branch(cs) => KidsHaveKey(cs, k)
  }

  function ChildHasKey(c: Child, k: int): bool {
    HasKey(c.node, k)
  }

  function KidsHaveKey(cs: seq<Child>, k: int): bool {
    if cs == [] then false
    else if |cs| == 1 || !AtLeast(k, cs[1].key) then ChildHasKey(cs[0], k)
    else KidsHaveKey(cs[1..], k)
  }

  /** Well-formed database: balanced ordered tree within capacity, counters equal to the real counts. */
  ghost predicate DbOk(cfg: Cfg, db: Db) {
    if db.root == [] then db == Db([], 0, 0, 0, 0)
    else
      && |db.root| == 1 && db.depth >= 1 && Full(db.root[0])
      && Shape(cfg, db.root[0], db.depth - 1, Blank, Top)
      && db.entries == |Items(db.root[0])|
      && db.leafPages == Leaves(db.root[0])
      && db.branchPages == Branches(db.root[0])
  }

  function DbItems(db: Db): seq<Item> {
    if db.root == [] then [] else Items(db.root[0])
  }

  // ---------------------------------------------------------------- where a value is stored

  /** The key has its value on an overflow page. */
  ghost predicate OnOverflow(s: seq<Item>, k: int) {
    exists i :: 0 <= i < |s| && s[i].key == k && s[i].big
  }

  /** The key has a value of this length beside it. */
  ghost predicate BesideKey(s: seq<Item>, k: int, len: nat) {
    exists i :: 0 <= i < |s| && s[i].key == k && !s[i].big && |s[i].data| == len
  }

  /** Is d stored on an overflow page (b) or beside its key? An overflow run that may be reused is, and so is the place
      of a value of the same length beside the key; otherwise a node larger than me_nodemax goes to an overflow page. */
  ghost predicate StoredAs(cfg: Cfg, s: seq<Item>, k: int, d: seq<int>, reuse: bool, b: bool) {
    if OnOverflow(s, k) && reuse then b
    else if BesideKey(s, k, |d|) then !b
    else b <==> 8 + cfg.ksize(k) + |d| > NodeMax(cfg)
  }

  /** Entries under other keys do not matter. */
  lemma StoredAmong(cfg: Cfg, a: seq<Item>, s: seq<Item>, z: seq<Item>, k: int, d: seq<int>, reuse: bool, b: bool)
    requires (forall i :: 0 <= i < |a| ==> a[i].key != k) && forall i :: 0 <= i < |z| ==> z[i].key != k
    requires StoredAs(cfg, s, k, d, reuse, b)
    ensures StoredAs(cfg, a + s + z, k, d, reuse, b)
  {
    var all := a + s + z;
    forall i | 0 <= i < |s| ensures all[|a| + i] == s[i] {
    }
    if OnOverflow(s, k) {
      var i :| 0 <= i < |s| && s[i].key == k && s[i].big;
      assert all[|a| + i] == s[i];
    }
    if BesideKey(s, k, |d|) {
      var i :| 0 <= i < |s| && s[i].key == k && !s[i].big && |s[i].data| == |d|;
      assert all[|a| + i] == s[i];
    }
    forall i | |a| + |s| <= i < |all| ensures all[i] == z[i - |a| - |s|] {
    }
    forall i | 0 <= i < |all| && all[i].key == k ensures |a| <= i < |a| + |s| && all[i] == s[i - |a|] {
    }
  }

  lemma StoredOnLeaf(cfg: Cfg, es: seq<Item>, k: int, d: seq<int>, reuse: bool)
    requires Increasing(es)
    ensures var p := Pos(es, k);
            var there := p < |es| && es[p].key == k;
            StoredAs(cfg, es, k, d, reuse,
                     if there && InPlace(es[p], d, reuse) then es[p].big else NewItem(cfg, k, d).big)
  {
    var p := Pos(es, k);
    hide Pos, NodeMax;
    forall i | 0 <= i < |es| && es[i].key == k ensures i == p {
    }
  }

  // ---------------------------------------------------------------- sizes of lists

  lemma LeafSizesCut(cfg: Cfg, s: seq<Item>, i: nat)
    requires i <= |s|
    ensures LeafSizes(cfg, s)[..i] == LeafSizes(cfg, s[..i]) && LeafSizes(cfg, s)[i..] == LeafSizes(cfg, s[i..])
  {
  }

  lemma BranchSizesCut(cfg: Cfg, s: seq<Child>, i: nat)
    requires i <= |s|
    ensures BranchSizes(cfg, s)[..i] == BranchSizes(cfg, s[..i]) && BranchSizes(cfg, s)[i..] == BranchSizes(cfg, s[i..])
  {
  }

  lemma LeafSizesInserted(cfg: Cfg, es: seq<Item>, p: nat, it: Item)
    requires p <= |es|
    ensures LeafSizes(cfg, Inserted(es, p, it)) == Inserted(LeafSizes(cfg, es), p, LeafSize(cfg, it))
  {
    hide LeafSizes, LeafSize;
    var a, b := LeafSizes(cfg, Inserted(es, p, it)), Inserted(LeafSizes(cfg, es), p, LeafSize(cfg, it));
    forall i | 0 <= i < |a| ensures a[i] == b[i] {
    }
  }

  lemma NewItemFits(cfg: Cfg, k: int, d: seq<int>)
    requires ValidCfg(cfg)
    ensures LeafSize(cfg, NewItem(cfg, k, d)) <= cfg.pmax / 2
  {
    assert Even(10 + cfg.ksize(k)) <= cfg.pmax / 4;
  }

  // ---------------------------------------------------------------- the leaf

  /** A result stands for the old items with `it` put in; it keeps height, bounds and counts. */
  ghost predicate PutOk(cfg: Cfg, n: Node, r: PutResult, it: Item, h: nat, lo: Sep, hi: High) {
    match r
    case PageFull => true
    case One(n', leaves, branches) =>
      && Full(n') && Shape(cfg, n', h, lo, hi) && Items(n') == Upd(Items(n), it)
      && Leaves(n') == Leaves(n) + leaves && Branches(n') == Branches(n) + branches
    case Two(l, sep, r', leaves, branches) =>
      && Full(l) && Full(r') && Shape(cfg, l, h, lo, Below(sep)) && Shape(cfg, r', h, At(sep), hi)
      && AtLeast(sep, lo) && Under(sep, hi)
      && Items(l) + Items(r') == Upd(Items(n), it)
      && Leaves(l) + Leaves(r') == Leaves(n) + leaves && Branches(l) + Branches(r') == Branches(n) + branches
  }

  /** The update of an ordered sequence, by position. */
  function UpdAt(es: seq<Item>, it: Item): seq<Item> {
    var p := Pos(es, it.key);
    if p < |es| && es[p].key == it.key then es[..p] + [it] + es[p + 1..] else Inserted(es, p, it)
  }

  lemma PosStep(es: seq<Item>, k: int)
    requires es != [] && es[0].key < k
    ensures Pos(es, k) == Pos(es[1..], k) + 1
  {
  }

  lemma UpdAtStep(es: seq<Item>, it: Item)
    requires es != [] && es[0].key < it.key
    ensures UpdAt(es, it) == [es[0]] + UpdAt(es[1..], it)
  {
    hide Pos;
    PosStep(es, it.key);
    var p, t := Pos(es[1..], it.key), es[1..];
    assert es[..p + 1] == [es[0]] + t[..p];
    if p < |t| && t[p].key == it.key {
      assert es[p + 2..] == t[p + 1..];
    } else {
      assert es[p + 1..] == t[p..];
    }
  }

  lemma {:induction false} UpdAtPos(es: seq<Item>, it: Item)
    requires Increasing(es)
    ensures Upd(es, it) == UpdAt(es, it)
  {
    if es != [] && es[0].key < it.key {
      UpdAtPos(es[1..], it);
      UpdAtStep(es, it);
    } else {
      assert Pos(es, it.key) == 0;
    }
  }

  ghost predicate LeafOk(cfg: Cfg, es: seq<Item>, lo: Sep, hi: High) {
    Increasing(es) && Within(es, lo, hi) && forall i :: 0 <= i < |es| ==> LeafSize(cfg, es[i]) <= cfg.pmax / 2
  }

  /** One end of a cut leaf. */
  lemma LeafCut(cfg: Cfg, all: seq<Item>, sp: nat, lo: Sep, hi: High)
    requires LeafOk(cfg, all, lo, hi) && 1 <= sp < |all|
    ensures LeafOk(cfg, all[..sp], lo, Below(all[sp].key)) && LeafOk(cfg, all[sp..], At(all[sp].key), hi)
    ensures AtLeast(all[sp].key, lo) && Under(all[sp].key, hi)
  {
    hide LeafSize;
  }

  lemma InsertedIncreasing(es: seq<Item>, p: nat, it: Item)
    requires Increasing(es) && p <= |es|
    requires (forall i :: 0 <= i < p ==> es[i].key < it.key) && forall i :: p <= i < |es| ==> it.key < es[i].key
    ensures Increasing(Inserted(es, p, it))
  {
    var all := Inserted(es, p, it);
    hide Inserted;
    InsertedAt(es, p, it);
    forall i, j | 0 <= i < j < |all| ensures all[i].key < all[j].key {
      if i < p && j > p {
        assert es[i].key < es[j - 1].key;
      } else if i == p {
        assert it.key < es[j - 1].key;
      } else if j == p {
        assert es[i].key < it.key;
      }
    }
  }

  lemma AfterPos(es: seq<Item>, it: Item)
    requires Increasing(es) && (Pos(es, it.key) < |es| ==> es[Pos(es, it.key)].key != it.key)
    ensures forall i :: Pos(es, it.key) <= i < |es| ==> it.key < es[i].key
  {
    hide Pos;
  }

  lemma InsertedEach(cfg: Cfg, es: seq<Item>, p: nat, it: Item, lo: Sep, hi: High)
    requires p <= |es| && Within(es, lo, hi) && (forall i :: 0 <= i < |es| ==> LeafSize(cfg, es[i]) <= cfg.pmax / 2)
    requires AtLeast(it.key, lo) && Under(it.key, hi) && LeafSize(cfg, it) <= cfg.pmax / 2
    ensures Within(Inserted(es, p, it), lo, hi)
    ensures forall i :: 0 <= i <= |es| ==> LeafSize(cfg, Inserted(es, p, it)[i]) <= cfg.pmax / 2
  {
    hide LeafSize, AtLeast, Under, Inserted;
    InsertedAt(es, p, it);
    var all := Inserted(es, p, it);
    forall i | 0 <= i < |all|
      ensures AtLeast(all[i].key, lo) && Under(all[i].key, hi) && LeafSize(cfg, all[i]) <= cfg.pmax / 2 {
      var e := if i < p then es[i] else if i == p then it else es[i - 1];
      assert all[i] == e;
    }
  }

  lemma InsertedAt(es: seq<Item>, p: nat, it: Item)
    requires p <= |es|
    ensures forall i :: 0 <= i <= |es| ==>
      Inserted(es, p, it)[i] == if i < p then es[i] else if i == p then it else es[i - 1]
  {
    var all := Inserted(es, p, it);
    forall i | 0 <= i <= |es| ensures all[i] == if i < p then es[i] else if i == p then it else es[i - 1] {
      if i > p { assert es[p..][i - p - 1] == es[i - 1]; }
    }
  }

  lemma InsertedLeafOk(cfg: Cfg, es: seq<Item>, it: Item, lo: Sep, hi: High)
    requires LeafOk(cfg, es, lo, hi) && LeafSize(cfg, it) <= cfg.pmax / 2
    requires AtLeast(it.key, lo) && Under(it.key, hi)
    requires Pos(es, it.key) < |es| ==> es[Pos(es, it.key)].key != it.key
    ensures LeafOk(cfg, Inserted(es, Pos(es, it.key), it), lo, hi)
  {
    var p := Pos(es, it.key);
    hide LeafSize, AtLeast, Under, Inserted, Pos, Increasing, Within;
    AfterPos(es, it);
    InsertedIncreasing(es, p, it);
    InsertedEach(cfg, es, p, it, lo, hi);
  }

  ghost predicate LeafResultOk(cfg: Cfg, all: seq<Item>, res: PutResult, lo: Sep, hi: High) {
    match res
    case PageFull => true
    case One(n, a, b) => n == Leaf(all) && Shape(cfg, n, 0, lo, hi) && a == 0 && b == 0
    case Two(l, sep, r, a, b) =>
      && Full(l) && Full(r) && Shape(cfg, l, 0, lo, Below(sep)) && Shape(cfg, r, 0, At(sep), hi)
      && AtLeast(sep, lo) && Under(sep, hi) && Items(l) + Items(r) == all && l.Leaf? && r.Leaf? && a == 1 && b == 0
  }

  lemma AddToLeafOk(cfg: Cfg, es: seq<Item>, it: Item, lo: Sep, hi: High)
    requires LeafOk(cfg, es, lo, hi) && LeafSize(cfg, it) <= cfg.pmax / 2 && Sum(LeafSizes(cfg, es)) <= cfg.pmax
    requires AtLeast(it.key, lo) && Under(it.key, hi)
    requires Pos(es, it.key) < |es| ==> es[Pos(es, it.key)].key != it.key
    ensures LeafResultOk(cfg, Inserted(es, Pos(es, it.key), it), AddToLeaf(cfg, es, Pos(es, it.key), it), lo, hi)
  {
    var p := Pos(es, it.key);
    var all := Inserted(es, p, it);
    InsertedLeafOk(cfg, es, it, lo, hi);
    LeafSizesInserted(cfg, es, p, it);
    InsertedSum(LeafSizes(cfg, es), p, LeafSize(cfg, it));
    LeafParts(cfg, es, p, it, all, lo, hi);
  }

  lemma LeafShape(cfg: Cfg, es: seq<Item>, lo: Sep, hi: High)
    requires LeafOk(cfg, es, lo, hi) && Sum(LeafSizes(cfg, es)) <= cfg.pmax
    ensures Shape(cfg, Leaf(es), 0, lo, hi)
  {
  }

  lemma LeafParts(cfg: Cfg, es: seq<Item>, p: nat, it: Item, all: seq<Item>, lo: Sep, hi: High)
    requires p <= |es| && all == Inserted(es, p, it) && LeafOk(cfg, all, lo, hi)
    requires Sum(LeafSizes(cfg, all)) == Sum(LeafSizes(cfg, es)) + LeafSize(cfg, it)
    requires Sum(LeafSizes(cfg, es)) <= cfg.pmax
    ensures LeafResultOk(cfg, all, AddToLeaf(cfg, es, p, it), lo, hi)
  {
    hide LeafSize, LeafSizes, Sum, SplitPoint, Increasing, Within, Inserted, LeafOk, Shape;
    var r := AddToLeaf(cfg, es, p, it);
    if r.Two? {
      var sp := SplitPoint(LeafSizes(cfg, all), p, cfg.pmax);
      LeafCut(cfg, all, sp, lo, hi);
      LeafSizesCut(cfg, all, sp);
      assert all == all[..sp] + all[sp..];
      LeafShape(cfg, all[..sp], lo, Below(all[sp].key));
      LeafShape(cfg, all[sp..], At(all[sp].key), hi);
    } else if r.One? {
      LeafShape(cfg, all, lo, hi);
    }
  }

  lemma PosWithout(es: seq<Item>, p: nat)
    requires Increasing(es) && p < |es|
    ensures var base := es[..p] + es[p + 1..];
            Pos(base, es[p].key) == p && (p < |base| ==> base[p].key > es[p].key)
  {
    var base := es[..p] + es[p + 1..];
    assert forall i :: 0 <= i < p ==> base[i] == es[i];
    assert forall i :: p <= i < |base| ==> base[i] == es[i + 1];
    var next := if p < |base| then base[p] else es[p];
  }

  lemma LeafWithout(cfg: Cfg, es: seq<Item>, p: nat, lo: Sep, hi: High)
    requires LeafOk(cfg, es, lo, hi) && p < |es| && Sum(LeafSizes(cfg, es)) <= cfg.pmax
    ensures LeafOk(cfg, es[..p] + es[p + 1..], lo, hi) && Sum(LeafSizes(cfg, es[..p] + es[p + 1..])) <= cfg.pmax
  {
    SumWithout(cfg, es, p);
    hide LeafSize, LeafSizes, Sum, AtLeast, Under;
    var base := es[..p] + es[p + 1..];
    forall i | 0 <= i < |base|
      ensures AtLeast(base[i].key, lo) && Under(base[i].key, hi) && LeafSize(cfg, base[i]) <= cfg.pmax / 2 {
      assert base[i] == es[if i < p then i else i + 1];
    }
    assert Increasing(base) by { WithoutIncreasing(es, p); }
    hide Increasing;
  }

  lemma WithoutIncreasing(es: seq<Item>, p: nat)
    requires Increasing(es) && p < |es|
    ensures Increasing(es[..p] + es[p + 1..])
  {
    var base := es[..p] + es[p + 1..];
    assert forall i :: 0 <= i < |base| ==> base[i] == es[if i < p then i else i + 1];
  }

  lemma SumWithout(cfg: Cfg, es: seq<Item>, p: nat)
    requires p < |es|
    ensures Sum(LeafSizes(cfg, es)) == Sum(LeafSizes(cfg, es[..p] + es[p + 1..])) + LeafSize(cfg, es[p])
  {
    var base := es[..p] + es[p + 1..];
    assert es == Inserted(base, p, es[p]);
    LeafSizesInserted(cfg, base, p, es[p]);
    InsertedSum(LeafSizes(cfg, base), p, LeafSize(cfg, es[p]));
  }

  lemma OverwriteOk(cfg: Cfg, es: seq<Item>, p: nat, it: Item, lo: Sep, hi: High)
    requires LeafOk(cfg, es, lo, hi) && p < |es| && Sum(LeafSizes(cfg, es)) <= cfg.pmax
    requires it.key == es[p].key && LeafSize(cfg, it) == LeafSize(cfg, es[p])
    ensures Shape(cfg, Leaf(es[p := it]), 0, lo, hi)
  {
    hide LeafSize, Sum;
    assert LeafSizes(cfg, es[p := it]) == LeafSizes(cfg, es);
  }

  lemma LeafResultIsPut(cfg: Cfg, es: seq<Item>, all: seq<Item>, r: PutResult, it: Item, lo: Sep, hi: High)
    requires LeafResultOk(cfg, all, r, lo, hi) && all == Upd(es, it) && all != []
    ensures PutOk(cfg, Leaf(es), r, it, 0, lo, hi)
  {
    hide Shape, Upd;
  }

  /** The key is not on the page. */
  lemma InsertLeafOk(cfg: Cfg, es: seq<Item>, k: int, d: seq<int>, lo: Sep, hi: High)
    requires ValidCfg(cfg) && LeafOk(cfg, es, lo, hi) && Sum(LeafSizes(cfg, es)) <= cfg.pmax && AtLeast(k, lo)
    requires Under(k, hi)
    requires Pos(es, k) < |es| ==> es[Pos(es, k)].key != k
    ensures PutOk(cfg, Leaf(es), AddToLeaf(cfg, es, Pos(es, k), NewItem(cfg, k, d)), NewItem(cfg, k, d), 0, lo, hi)
  {
    var it := NewItem(cfg, k, d);
    NewItemFits(cfg, k, d);
    UpdAtPos(es, it);
    hide LeafSize, LeafSizes, Sum, Upd, AddToLeaf, PutOk, LeafOk, Pos, LeafResultOk, ValidCfg, NodeMax;
    AddToLeafOk(cfg, es, it, lo, hi);
    LeafResultIsPut(cfg, es, Inserted(es, Pos(es, k), it), AddToLeaf(cfg, es, Pos(es, k), it), it, lo, hi);
  }

  /** The key is on the page and its node has to be deleted and added again. */
  lemma ReplaceLeafOk(cfg: Cfg, es: seq<Item>, p: nat, k: int, d: seq<int>, lo: Sep, hi: High)
    requires ValidCfg(cfg) && LeafOk(cfg, es, lo, hi) && Sum(LeafSizes(cfg, es)) <= cfg.pmax && AtLeast(k, lo)
    requires Under(k, hi)
    requires p == Pos(es, k) < |es| && es[p].key == k
    ensures PutOk(cfg, Leaf(es), AddToLeaf(cfg, es[..p] + es[p + 1..], p, NewItem(cfg, k, d)), NewItem(cfg, k, d), 0,
      lo, hi)
  {
    var it := NewItem(cfg, k, d);
    NewItemFits(cfg, k, d);
    UpdAtPos(es, it);
    var base := es[..p] + es[p + 1..];
    PosWithout(es, p);
    hide LeafSize, LeafSizes, Sum, Upd, AddToLeaf, PutOk, LeafOk, LeafResultOk, ValidCfg, NodeMax, Pos;
    LeafWithout(cfg, es, p, lo, hi);
    AddToLeafOk(cfg, base, it, lo, hi);
    assert Inserted(base, p, it) == es[..p] + [it] + es[p + 1..];
    LeafResultIsPut(cfg, es, Inserted(base, p, it), AddToLeaf(cfg, base, p, it), it, lo, hi);
  }

  /** The data is overwritten where it is. */
  lemma OverwriteLeafOk(cfg: Cfg, es: seq<Item>, p: nat, it: Item, lo: Sep, hi: High)
    requires LeafOk(cfg, es, lo, hi) && Sum(LeafSizes(cfg, es)) <= cfg.pmax
    requires p == Pos(es, it.key) < |es| && es[p].key == it.key && LeafSize(cfg, it) == LeafSize(cfg, es[p])
    ensures PutOk(cfg, Leaf(es), One(Leaf(es[p := it]), 0, 0), it, 0, lo, hi)
  {
    hide LeafSize, LeafSizes, Sum, Upd, LeafOk, Pos, Shape, Increasing;
    LeafIncreasing(cfg, es, lo, hi);
    UpdHit(es, p, it);
    OverwriteOk(cfg, es, p, it, lo, hi);
  }

  lemma UpdHit(es: seq<Item>, p: nat, it: Item)
    requires Increasing(es) && p == Pos(es, it.key) < |es| && es[p].key == it.key
    ensures Upd(es, it) == es[p := it]
  {
    UpdAtPos(es, it);
    hide Pos, Increasing, Upd;
    assert es[p := it] == es[..p] + [it] + es[p + 1..];
  }

  lemma LeafIncreasing(cfg: Cfg, es: seq<Item>, lo: Sep, hi: High)
    requires LeafOk(cfg, es, lo, hi)
    ensures Increasing(es)
  {
  }

  lemma ShapeLeaf(cfg: Cfg, es: seq<Item>, lo: Sep, hi: High)
    requires Shape(cfg, Leaf(es), 0, lo, hi)
    ensures LeafOk(cfg, es, lo, hi) && Sum(LeafSizes(cfg, es)) <= cfg.pmax
  {
  }

  lemma PutLeafOk(cfg: Cfg, es: seq<Item>, k: int, d: seq<int>, reuse: bool, lo: Sep, hi: High) returns (b: bool)
    requires ValidCfg(cfg) && Shape(cfg, Leaf(es), 0, lo, hi) && AtLeast(k, lo) && Under(k, hi)
    ensures PutOk(cfg, Leaf(es), PutLeaf(cfg, es, k, d, reuse), Item(k, d, b), 0, lo, hi)
    ensures StoredAs(cfg, es, k, d, reuse, b)
  {
    hide LeafSizes, Sum, AddToLeaf, PutOk, LeafOk, Shape, Pos, ValidCfg, NodeMax, AtLeast, Under, Even, StoredAs,
         Increasing;
    ShapeLeaf(cfg, es, lo, hi);
    LeafIncreasing(cfg, es, lo, hi);
    StoredOnLeaf(cfg, es, k, d, reuse);
    var p := Pos(es, k);
    if p < |es| && es[p].key == k {
      if InPlace(es[p], d, reuse) {
        b := es[p].big;
        OverwriteLeafOk(cfg, es, p, Item(k, d, b), lo, hi);
      } else {
        b := NewItem(cfg, k, d).big;
        ReplaceLeafOk(cfg, es, p, k, d, lo, hi);
      }
    } else {
      b := NewItem(cfg, k, d).big;
      InsertLeafOk(cfg, es, k, d, lo, hi);
    }
  }

  // ---------------------------------------------------------------- the branch

  /** Separators after the step: the same, or one more at newAt. */
  ghost predicate SameSeps(cs: seq<Child>, cs': seq<Child>, newAt: nat) {
    if newAt == 0 then |cs'| == |cs| && forall i :: 0 <= i < |cs| ==> cs'[i].key == cs[i].key
    else
      && newAt < |cs'| == |cs| + 1 && cs'[newAt].key.At?
      && (forall i :: 0 <= i < newAt ==> cs'[i].key == cs[i].key)
      && (forall i :: newAt < i < |cs'| ==> cs'[i].key == cs[i - 1].key)
  }

  ghost predicate KidsPutOk(cfg: Cfg, cs: seq<Child>, r: KidsResult, it: Item, h: nat, lo: Sep, hi: High) {
    match r
    case KidsFull => true
    case KidsDone(cs', newAt, leaves, branches) =>
      && cs' != [] && Kids(cfg, cs', h, lo, hi) && SameSeps(cs, cs', newAt)
      && Flat(cs') == Upd(Flat(cs), it)
      && KidLeaves(cs') == KidLeaves(cs) + leaves && KidBranches(cs') == KidBranches(cs) + branches
  }

  lemma {:induction false} FlatConcat(s: seq<Child>, t: seq<Child>)
    ensures Flat(s + t) == Flat(s) + Flat(t)
    ensures KidLeaves(s + t) == KidLeaves(s) + KidLeaves(t)
    ensures KidBranches(s + t) == KidBranches(s) + KidBranches(t)
  {
    if s == [] {
      assert s + t == t;
    } else {
      assert (s + t)[1..] == s[1..] + t;
      FlatConcat(s[1..], t);
    }
  }

  lemma FlatOne(c: Child)
    ensures Flat([c]) == Items(c.node) && KidLeaves([c]) == Leaves(c.node) && KidBranches([c]) == Branches(c.node)
  {
  }

  /** The first child is replaced by one or two pages. */
  lemma FirstKidOk(cfg: Cfg, cs: seq<Child>, r: PutResult, it: Item, h: nat, lo: Sep, hi: High)
    requires cs != [] && Kids(cfg, cs, h, lo, hi) && PutOk(cfg, cs[0].node, r, it, h, lo, FirstHigh(cs, hi))
    requires !r.PageFull?
    ensures var first := if r.One? then [Child(cs[0].key, r.n)]
      else [Child(cs[0].key, r.left), Child(At(r.sep), r.right)];
            Kids(cfg, first + cs[1..], h, lo, hi) && SameSeps(cs, first + cs[1..], if r.One? then 0 else 1)
  {
    if r.One? {
      var first := [Child(cs[0].key, r.n)];
      assert (first + cs[1..])[1..] == cs[1..];
    } else {
      var first := [Child(cs[0].key, r.left), Child(At(r.sep), r.right)];
      var second := [Child(At(r.sep), r.right)] + cs[1..];
      assert (first + cs[1..])[1..] == second;
      assert second[1..] == cs[1..];
    }
  }

  /** Its items and page counts. */
  lemma FirstKidItems(cs: seq<Child>, first: seq<Child>, a: seq<Item>, it: Item)
    requires cs != [] && Flat(first) == Upd(Items(cs[0].node), it)
    requires forall i :: 0 <= i < |Flat(cs[1..])| ==> it.key < Flat(cs[1..])[i].key
    ensures Flat(first + cs[1..]) == Upd(Flat(cs), it)
    ensures KidLeaves(first + cs[1..]) == KidLeaves(first) + KidLeaves(cs[1..])
    ensures KidBranches(first + cs[1..]) == KidBranches(first) + KidBranches(cs[1..])
  {
    FlatConcat(first, cs[1..]);
    UpdLeft(Items(cs[0].node), Flat(cs[1..]), it);
  }

  lemma RestAbove(cfg: Cfg, cs: seq<Child>, h: nat, lo: Sep, hi: High, k: int)
    requires cs != [] && Kids(cfg, cs, h, lo, hi) && (|cs| == 1 || !AtLeast(k, cs[1].key))
    ensures forall i :: 0 <= i < |Flat(cs[1..])| ==> k < Flat(cs[1..])[i].key
    ensures Under(k, hi) ==> Under(k, FirstHigh(cs, hi))
  {
    if |cs| > 1 {
      FlatOrdered(cfg, cs[1..], h, cs[1].key, hi);
    }
  }

  lemma FirstBelow(cfg: Cfg, cs: seq<Child>, h: nat, lo: Sep, hi: High, k: int)
    requires |cs| > 1 && Kids(cfg, cs, h, lo, hi) && AtLeast(k, cs[1].key)
    ensures forall i :: 0 <= i < |Items(cs[0].node)| ==> Items(cs[0].node)[i].key < k
  {
    ItemsOrdered(cfg, cs[0].node, h, lo, FirstHigh(cs, hi));
  }

  lemma {:induction false} PutKidsOk(cfg: Cfg, cs: seq<Child>, k: int, d: seq<int>, reuse: bool, h: nat, lo: Sep,
                                     hi: High) returns (b: bool)
    requires ValidCfg(cfg) && cs != [] && Kids(cfg, cs, h, lo, hi) && AtLeast(k, lo) && Under(k, hi)
    ensures KidsPutOk(cfg, cs, PutKids(cfg, cs, k, d, reuse), Item(k, d, b), h, lo, hi)
    ensures StoredAs(cfg, Flat(cs), k, d, reuse, b)
    decreases h, 1, |cs|
  {
    hide StoredAs, Shape, PutOk, Items, SameSeps, Under;
    if |cs| == 1 || !AtLeast(k, cs[1].key) {
      RestAbove(cfg, cs, h, lo, hi, k);
      b := PutNodeOk(cfg, cs[0].node, k, d, reuse, h, lo, FirstHigh(cs, hi));
      var r := PutNode(cfg, cs[0].node, k, d, reuse);
      PutFirstKid(cfg, cs, k, d, reuse);
      if !r.PageFull? {
        FirstKidDone(cfg, cs, r, Item(k, d, b), h, lo, hi);
      }
      StoredInFirst(cfg, cs, k, d, reuse, b);
    } else {
      b := PutKidsOk(cfg, cs[1..], k, d, reuse, h, cs[1].key, hi);
      var r := PutKids(cfg, cs[1..], k, d, reuse);
      FirstBelow(cfg, cs, h, lo, hi, k);
      StoredInRest(cfg, cs, k, d, reuse, b);
      if r.KidsDone? {
        UpdRight(Items(cs[0].node), Flat(cs[1..]), Item(k, d, b));
        RestKidsOk(cfg, cs, r, Item(k, d, b), h, lo, hi);
      }
    }
  }

  lemma FlatHead(cs: seq<Child>)
    requires cs != []
    ensures Flat(cs) == Items(cs[0].node) + Flat(cs[1..])
  {
  }

  lemma StoredInFirst(cfg: Cfg, cs: seq<Child>, k: int, d: seq<int>, reuse: bool, b: bool)
    requires cs != [] && forall i :: 0 <= i < |Flat(cs[1..])| ==> k < Flat(cs[1..])[i].key
    requires StoredAs(cfg, Items(cs[0].node), k, d, reuse, b)
    ensures StoredAs(cfg, Flat(cs), k, d, reuse, b)
  {
    hide StoredAs, Items, Flat;
    FlatHead(cs);
    StoredAmong(cfg, [], Items(cs[0].node), Flat(cs[1..]), k, d, reuse, b);
    assert [] + Items(cs[0].node) + Flat(cs[1..]) == Flat(cs);
  }

  lemma StoredInRest(cfg: Cfg, cs: seq<Child>, k: int, d: seq<int>, reuse: bool, b: bool)
    requires cs != [] && forall i :: 0 <= i < |Items(cs[0].node)| ==> Items(cs[0].node)[i].key < k
    requires StoredAs(cfg, Flat(cs[1..]), k, d, reuse, b)
    ensures StoredAs(cfg, Flat(cs), k, d, reuse, b)
  {
    hide StoredAs, Items, Flat;
    FlatHead(cs);
    StoredAmong(cfg, Items(cs[0].node), Flat(cs[1..]), [], k, d, reuse, b);
    assert Items(cs[0].node) + Flat(cs[1..]) + [] == Flat(cs);
  }

  /** What replaces a child in its parent. */
  function Pieces(key: Sep, r: PutResult): (first: seq<Child>)
    requires !r.PageFull?
    ensures |first| == if r.One? then 1 else 2
  {
    if r.One? then [Child(key, r.n)] else [Child(key, r.left), Child(At(r.sep), r.right)]
  }

  lemma PiecesItems(cfg: Cfg, c: Child, r: PutResult, it: Item, h: nat, lo: Sep, hi: High)
    requires !r.PageFull? && PutOk(cfg, c.node, r, it, h, lo, hi)
    ensures Flat(Pieces(c.key, r)) == Upd(Items(c.node), it)
    ensures KidLeaves(Pieces(c.key, r)) == Leaves(c.node) + r.leaves
    ensures KidBranches(Pieces(c.key, r)) == Branches(c.node) + r.branches
  {
    var first := Pieces(c.key, r);
    FlatOne(first[0]);
    if r.Two? {
      FlatConcat([first[0]], [first[1]]);
      assert first == [first[0]] + [first[1]];
      FlatOne(first[1]);
    }
    hide Shape, Flat, KidLeaves, KidBranches, Upd, Leaves, Branches, Items, Full;
  }

  lemma PutFirstKid(cfg: Cfg, cs: seq<Child>, k: int, d: seq<int>, reuse: bool)
    requires cs != [] && (|cs| == 1 || !AtLeast(k, cs[1].key))
    ensures var r := PutNode(cfg, cs[0].node, k, d, reuse);
            PutKids(cfg, cs, k, d, reuse) == if r.PageFull? then KidsFull
              else KidsDone(Pieces(cs[0].key, r) + cs[1..], if r.One? then 0 else 1, r.leaves, r.branches)
  {
    hide PutNode;
  }

  lemma KidsCount(cs: seq<Child>)
    requires cs != []
    ensures KidLeaves(cs) == Leaves(cs[0].node) + KidLeaves(cs[1..])
    ensures KidBranches(cs) == Branches(cs[0].node) + KidBranches(cs[1..])
  {
    hide Leaves, Branches;
    assert ChildLeaves(cs[0]) == Leaves(cs[0].node) && ChildBranches(cs[0]) == Branches(cs[0].node);
  }

  lemma FirstKidDone(cfg: Cfg, cs: seq<Child>, r: PutResult, it: Item, h: nat, lo: Sep, hi: High)
    requires cs != [] && Kids(cfg, cs, h, lo, hi) && !r.PageFull?
    requires PutOk(cfg, cs[0].node, r, it, h, lo, FirstHigh(cs, hi))
    requires forall i :: 0 <= i < |Flat(cs[1..])| ==> it.key < Flat(cs[1..])[i].key
    ensures KidsPutOk(cfg, cs, KidsDone(Pieces(cs[0].key, r) + cs[1..], if r.One? then 0 else 1, r.leaves, r.branches),
      it, h, lo, hi)
  {
    KidsCount(cs);
    PiecesItems(cfg, cs[0], r, it, h, lo, FirstHigh(cs, hi));
    hide Shape, Kids, Flat, KidLeaves, KidBranches, Upd, Leaves, Branches, Items, PutOk, SameSeps, FirstHigh;
    FirstKidOk(cfg, cs, r, it, h, lo, hi);
    FirstKidItems(cs, Pieces(cs[0].key, r), [], it);
  }

  lemma RestKidsOk(cfg: Cfg, cs: seq<Child>, r: KidsResult, it: Item, h: nat, lo: Sep, hi: High)
    requires |cs| > 1 && Kids(cfg, cs, h, lo, hi) && r.KidsDone? && KidsPutOk(cfg, cs[1..], r, it, h, cs[1].key, hi)
    requires Upd(Flat(cs), it) == Items(cs[0].node) + Upd(Flat(cs[1..]), it)
    ensures KidsPutOk(cfg, cs, KidsDone([cs[0]] + r.cs, if r.newAt == 0 then 0 else r.newAt + 1, r.leaves, r.branches),
      it, h, lo, hi)
  {
    var cs' := [cs[0]] + r.cs;
    assert cs'[1..] == r.cs;
    hide Shape, Upd;
    RestSeps(cs, r.cs, r.newAt);
    hide SameSeps, Items, Leaves, Branches;
  }

  lemma RestSeps(cs: seq<Child>, rest: seq<Child>, newAt: nat)
    requires |cs| > 1 && rest != [] && SameSeps(cs[1..], rest, newAt)
    ensures SameSeps(cs, [cs[0]] + rest, if newAt == 0 then 0 else newAt + 1) && rest[0].key == cs[1].key
  {
  }

  lemma {:induction false} PutNodeOk(cfg: Cfg, n: Node, k: int, d: seq<int>, reuse: bool, h: nat, lo: Sep, hi: High)
    returns (b: bool)
    requires ValidCfg(cfg) && Full(n) && Shape(cfg, n, h, lo, hi) && AtLeast(k, lo) && Under(k, hi)
    ensures PutOk(cfg, n, PutNode(cfg, n, k, d, reuse), Item(k, d, b), h, lo, hi)
    ensures StoredAs(cfg, Items(n), k, d, reuse, b)
    decreases h, 0
  {
    hide StoredAs;
    match n {
      case Leaf(es) => b := PutLeafOk(cfg, es, k, d, reuse, lo, hi);
      case Branch(cs) =>
        b := PutKidsOk(cfg, cs, k, d, reuse, h - 1, lo, hi);
        var r := PutKids(cfg, cs, k, d, reuse);
        if r.KidsDone? {
          PutBranchOk(cfg, cs, r, Item(k, d, b), h, lo, hi);
        }
    }
  }

  lemma PutBranchOk(cfg: Cfg, cs: seq<Child>, r: KidsResult, it: Item, h: nat, lo: Sep, hi: High)
    requires ValidCfg(cfg) && Full(Branch(cs)) && Shape(cfg, Branch(cs), h, lo, hi)
    requires r.KidsDone? && KidsPutOk(cfg, cs, r, it, h - 1, lo, hi)
    ensures PutOk(cfg, Branch(cs), if 1 <= r.newAt < |r.cs| then AddToBranch(cfg, r.cs, r.newAt, r.leaves, r.branches)
                                   else One(Branch(r.cs), r.leaves, r.branches), it, h, lo, hi)
  {
    if r.newAt == 0 {
      assert BranchSizes(cfg, r.cs) == BranchSizes(cfg, cs);
    } else {
      AddToBranchOk(cfg, cs, r, it, h, lo, hi);
    }
  }

  lemma {:induction false} KidsCut(cfg: Cfg, cs: seq<Child>, sp: nat, h: nat, lo: Sep, hi: High)
    requires Kids(cfg, cs, h, lo, hi) && 1 <= sp < |cs|
    ensures cs[sp].key.At?
    ensures Kids(cfg, cs[..sp], h, lo, Below(cs[sp].key.k)) && Kids(cfg, cs[sp..], h, cs[sp].key, hi)
    ensures AtLeast(cs[sp].key.k, lo) && Under(cs[sp].key.k, hi)
    decreases sp
  {
    FlatOrdered(cfg, cs, h, lo, hi);
    if sp == 1 {
      assert cs[..1] == [cs[0]];
    } else {
      KidsCut(cfg, cs[1..], sp - 1, h, cs[1].key, hi);
      assert cs[1..][..sp - 1] == cs[..sp][1..];
      assert cs[1..][sp - 1..] == cs[sp..];
      assert FirstHigh(cs[..sp], Below(cs[sp].key.k)) == FirstHigh(cs, hi);
    }
  }

  /** Blanking the first key of a page changes neither bounds nor contents. */
  lemma BlankFirst(cfg: Cfg, cs: seq<Child>, h: nat, lo: Sep, hi: High)
    requires cs != [] && Kids(cfg, cs, h, lo, hi)
    ensures var t := [Child(Blank, cs[0].node)] + cs[1..];
            Kids(cfg, t, h, lo, hi) && Flat(t) == Flat(cs) && KidLeaves(t) == KidLeaves(cs) &&
              KidBranches(t) == KidBranches(cs)
    ensures Sum(BranchSizes(cfg, [Child(Blank, cs[0].node)] + cs[1..])) ==
      Sum(BranchSizes(cfg, cs)) - BranchSize(cfg, cs[0].key) + BLANK_SIZE
  {
    var t := [Child(Blank, cs[0].node)] + cs[1..];
    assert t[1..] == cs[1..];
  }

  lemma BranchSizesInserted(cfg: Cfg, cs: seq<Child>, cs': seq<Child>, newAt: nat)
    requires newAt > 0 && SameSeps(cs, cs', newAt)
    ensures BranchSizes(cfg, cs') == Inserted(BranchSizes(cfg, cs), newAt, BranchSize(cfg, cs'[newAt].key))
  {
    hide BranchSizes, BranchSize;
    var a, b := BranchSizes(cfg, cs'), Inserted(BranchSizes(cfg, cs), newAt, BranchSize(cfg, cs'[newAt].key));
    forall i | 0 <= i < |a| ensures a[i] == b[i] {
    }
  }

  lemma QuarterNodes(cfg: Cfg, cs: seq<Child>)
    requires ValidCfg(cfg)
    ensures forall i :: 0 <= i < |cs| ==> BranchSizes(cfg, cs)[i] <= cfg.pmax / 4
  {
    forall i | 0 <= i < |cs| ensures BranchSizes(cfg, cs)[i] <= cfg.pmax / 4 {
      var key := cs[i].key;
      if key.At? { assert Even(10 + cfg.ksize(key.k)) <= cfg.pmax / 4; } else { assert Even(10) <= 64 / 4; }
    }
  }

  lemma AddToBranchOk(cfg: Cfg, cs: seq<Child>, r: KidsResult, it: Item, h: nat, lo: Sep, hi: High)
    requires ValidCfg(cfg) && Full(Branch(cs)) && Shape(cfg, Branch(cs), h, lo, hi)
    requires r.KidsDone? && r.newAt > 0 && KidsPutOk(cfg, cs, r, it, h - 1, lo, hi)
    ensures PutOk(cfg, Branch(cs), AddToBranch(cfg, r.cs, r.newAt, r.leaves, r.branches), it, h, lo, hi)
  {
    hide Sum, SplitPoint, Kids, Flat, KidLeaves, KidBranches, Upd, BranchSize, BranchSizes;
    if Sum(BranchSizes(cfg, r.cs)) > cfg.pmax {
      BranchSplitPoint(cfg, cs, r);
      hide PutOk, AddToBranch, Shape, ValidCfg;
      BranchParts(cfg, r.cs, SplitPoint(BranchSizes(cfg, r.cs), r.newAt, cfg.pmax), h, lo, hi);
      SplitBranchOk(cfg, cs, r.cs, r, SplitPoint(BranchSizes(cfg, r.cs), r.newAt, cfg.pmax), it, h, lo, hi);
    }
  }

  /** The two halves of a branch page, the second with its first key blank. */
  lemma BranchParts(cfg: Cfg, cs: seq<Child>, sp: nat, h: nat, lo: Sep, hi: High)
    requires h > 0 && 2 <= sp <= |cs| - 2 && Kids(cfg, cs, h - 1, lo, hi)
    ensures cs[sp].key.At? && Kids(cfg, cs[..sp], h - 1, lo, Below(cs[sp].key.k)) && AtLeast(cs[sp].key.k, lo)
    ensures Under(cs[sp].key.k, hi)
    ensures BranchSizes(cfg, cs)[..sp] == BranchSizes(cfg, cs[..sp])
    ensures BranchSizes(cfg, cs)[sp..] == BranchSizes(cfg, cs[sp..])
    ensures var t := [Child(Blank, cs[sp].node)] + cs[sp + 1..];
            && Kids(cfg, t, h - 1, cs[sp].key, hi)
            && Sum(BranchSizes(cfg, t)) == RightLoad(BranchSizes(cfg, cs), sp, true)
            && Flat(cs) == Flat(cs[..sp]) + Flat(t)
            && KidLeaves(cs) == KidLeaves(cs[..sp]) + KidLeaves(t)
            && KidBranches(cs) == KidBranches(cs[..sp]) + KidBranches(t)
  {
    hide Kids, Flat, KidLeaves, KidBranches, Sum, BranchSizes, BranchSize;
    KidsCut(cfg, cs, sp, h - 1, lo, hi);
    BranchSizesCut(cfg, cs, sp);
    var u := cs[sp..];
    BlankFirst(cfg, u, h - 1, cs[sp].key, hi);
    FlatConcat(cs[..sp], u);
    assert cs == cs[..sp] + u;
    assert u[1..] == cs[sp + 1..];
  }

  /** The split of a branch page leaves at least two children on each side. */
  lemma BranchSplitPoint(cfg: Cfg, cs: seq<Child>, r: KidsResult)
    requires ValidCfg(cfg) && |cs| >= 2 && Sum(BranchSizes(cfg, cs)) <= cfg.pmax
    requires r.KidsDone? && r.newAt > 0 && SameSeps(cs, r.cs, r.newAt) && Sum(BranchSizes(cfg, r.cs)) > cfg.pmax
    ensures 2 <= SplitPoint(BranchSizes(cfg, r.cs), r.newAt, cfg.pmax) <= |r.cs| - 2
  {
    BranchSizesInserted(cfg, cs, r.cs, r.newAt);
    InsertedSum(BranchSizes(cfg, cs), r.newAt, BranchSize(cfg, r.cs[r.newAt].key));
    QuarterNodes(cfg, r.cs);
    hide BranchSizes, Sum, SplitPoint, BranchSize;
    TwoOnEachSide(BranchSizes(cfg, r.cs), r.newAt, cfg.pmax);
  }

  lemma SplitBranchOk(cfg: Cfg, cs: seq<Child>, cs': seq<Child>, r: KidsResult, sp: nat, it: Item, h: nat, lo: Sep,
                      hi: High)
    requires h > 0 && r.KidsDone? && r.cs == cs' && KidsPutOk(cfg, cs, r, it, h - 1, lo, hi) && cs != []
    requires cs[0].key.Blank?
    requires 1 <= r.newAt < |cs'| && 2 <= sp <= |cs'| - 2 && sp == SplitPoint(BranchSizes(cfg, cs'), r.newAt, cfg.pmax)
    requires Sum(BranchSizes(cfg, cs')) > cfg.pmax && cs'[sp].key.At?
    requires Kids(cfg, cs'[..sp], h - 1, lo, Below(cs'[sp].key.k)) && AtLeast(cs'[sp].key.k, lo)
    requires Under(cs'[sp].key.k, hi)
    requires BranchSizes(cfg, cs')[..sp] == BranchSizes(cfg, cs'[..sp])
    requires BranchSizes(cfg, cs')[sp..] == BranchSizes(cfg, cs'[sp..])
    requires var t := [Child(Blank, cs'[sp].node)] + cs'[sp + 1..];
             && Kids(cfg, t, h - 1, cs'[sp].key, hi)
             && Sum(BranchSizes(cfg, t)) == RightLoad(BranchSizes(cfg, cs'), sp, true)
             && Flat(cs') == Flat(cs'[..sp]) + Flat(t)
             && KidLeaves(cs') == KidLeaves(cs'[..sp]) + KidLeaves(t)
             && KidBranches(cs') == KidBranches(cs'[..sp]) + KidBranches(t)
    ensures PutOk(cfg, Branch(cs), AddToBranch(cfg, cs', r.newAt, r.leaves, r.branches), it, h, lo, hi)
  {
    hide Kids, Sum, SplitPoint, BranchSizes, Upd, Flat, KidLeaves, KidBranches;
  }

  // ---------------------------------------------------------------- when a page refuses

  /** A page with these node sizes cannot take a node of nsize bytes at newindx: it has to be split, the sizes are not
      looked at, and the half that takes the node has no room for it. */
  ghost predicate Refuses(page: seq<nat>, nsize: nat, newindx: nat, pmax: nat, branch: bool) {
    && Sum(page) + nsize > pmax
    && |page| >= 20 && nsize <= pmax / 16 && newindx < |page|
    && HalfLoad(page, nsize, newindx, branch) > pmax
  }

  lemma RefusesExactly(page: seq<nat>, nsize: nat, newindx: nat, pmax: nat, branch: bool)
    requires newindx <= |page| && Sum(page) <= pmax && nsize <= pmax / 2
    requires forall i :: 0 <= i < |page| ==> page[i] <= pmax / 2
    requires branch ==> nsize >= BLANK_SIZE && forall i :: 0 <= i < |page| ==> page[i] >= BLANK_SIZE
    ensures var all := Inserted(page, newindx, nsize);
            Sum(all) > pmax && (|all| < 3 || !SplitFits(all, SplitPoint(all, newindx, pmax), pmax, branch)) <==>
            Refuses(page, nsize, newindx, pmax, branch)
  {
    var all := Inserted(page, newindx, nsize);
    InsertedSum(page, newindx, nsize);
    NewAt(page, newindx, nsize);
    hide SplitFits, SplitPoint, Sum, HalfLoad, Inserted;
    if Sum(all) > pmax {
      if |all| < 3 {
        SumBound(all, pmax / 2);
        MulLe(|all|, 2, pmax / 2);
      } else if ScansSizes(all, newindx, pmax) {
        ScannedSplitFits(all, newindx, pmax, branch);
      } else {
        MiddleSplitFits(page, nsize, newindx, pmax, branch);
      }
    }
  }

  lemma NewAt(page: seq<nat>, i: nat, x: nat)
    requires i <= |page|
    ensures Inserted(page, i, x)[i] == x
    ensures forall k :: 0 <= k <= |page| ==> Inserted(page, i, x)[k] == x || Inserted(page, i, x)[k] in page
  {
  }

  /** A leaf refuses a node exactly when a split is needed, sizes are not scanned and the node's half is too full. */
  lemma LeafFullExactly(cfg: Cfg, es: seq<Item>, p: nat, it: Item)
    requires p <= |es| && cfg.pmax >= 64 && Sum(LeafSizes(cfg, es)) <= cfg.pmax
    requires LeafSize(cfg, it) <= cfg.pmax / 2 && forall i :: 0 <= i < |es| ==> LeafSize(cfg, es[i]) <= cfg.pmax / 2
    ensures AddToLeaf(cfg, es, p, it).PageFull? <==> Refuses(LeafSizes(cfg, es), LeafSize(cfg, it), p, cfg.pmax, false)
  {
    LeafSizesInserted(cfg, es, p, it);
    InsertedSum(LeafSizes(cfg, es), p, LeafSize(cfg, it));
    hide LeafSize, LeafSizes, Sum, SplitPoint, SplitFits, Refuses;
    RefusesExactly(LeafSizes(cfg, es), LeafSize(cfg, it), p, cfg.pmax, false);
  }

  lemma BlankSmallest(cfg: Cfg, cs: seq<Child>)
    ensures forall i :: 0 <= i < |cs| ==> BranchSizes(cfg, cs)[i] >= BLANK_SIZE
  {
  }

  /** The same for a branch page that takes one more separator; its right half starts with a blank key. */
  lemma BranchFullExactly(cfg: Cfg, cs: seq<Child>, r: KidsResult, h: nat, lo: Sep, hi: High)
    requires ValidCfg(cfg) && |cs| >= 2 && Sum(BranchSizes(cfg, cs)) <= cfg.pmax
    requires r.KidsDone? && r.newAt > 0 && SameSeps(cs, r.cs, r.newAt) && Kids(cfg, r.cs, h, lo, hi)
    ensures AddToBranch(cfg, r.cs, r.newAt, r.leaves, r.branches).PageFull? <==>
            Refuses(BranchSizes(cfg, cs), BranchSize(cfg, r.cs[r.newAt].key), r.newAt, cfg.pmax, true)
  {
    hide BranchSizes, BranchSize, Sum, SplitPoint, Kids, SplitFits, Refuses, ValidCfg;
    var nsize := BranchSize(cfg, r.cs[r.newAt].key);
    BranchSizesInserted(cfg, cs, r.cs, r.newAt);
    InsertedSum(BranchSizes(cfg, cs), r.newAt, nsize);
    QuarterNodes(cfg, r.cs);
    QuarterNodes(cfg, cs);
    BlankSmallest(cfg, cs);
    BlankSmallest(cfg, r.cs);
    RefusesExactly(BranchSizes(cfg, cs), nsize, r.newAt, cfg.pmax, true);
    if Sum(BranchSizes(cfg, r.cs)) > cfg.pmax {
      BranchSplitPoint(cfg, cs, r);
      KidsCut(cfg, r.cs, SplitPoint(BranchSizes(cfg, r.cs), r.newAt, cfg.pmax), h, lo, hi);
    }
  }

  /** The leaf on the search path refuses the new node. */
  ghost predicate LeafRefuses(cfg: Cfg, es: seq<Item>, k: int, d: seq<int>, reuse: bool) {
    var p, nsize := Pos(es, k), LeafSize(cfg, NewItem(cfg, k, d));
    if p < |es| && es[p].key == k then
      !InPlace(es[p], d, reuse) && Refuses(LeafSizes(cfg, es[..p] + es[p + 1..]), nsize, p, cfg.pmax, false)
    else Refuses(LeafSizes(cfg, es), nsize, p, cfg.pmax, false)
  }

  /** Some page on the search path refuses: the leaf the new node, or a branch page the separator of a page that was
      split. */
  ghost predicate PathRefuses(cfg: Cfg, n: Node, k: int, d: seq<int>, reuse: bool) {
    match n
    case Leaf(es) => LeafRefuses(cfg, es, k, d, reuse)
    case Branch(cs) =>
      || KidsRefuse(cfg, cs, k, d, reuse)
      || match PutKids(cfg, cs, k, d, reuse)
         case KidsFull => false
         case KidsDone(cs', newAt, _, _) =>
           0 < newAt < |cs'| && Refuses(BranchSizes(cfg, cs), BranchSize(cfg, cs'[newAt].key), newAt, cfg.pmax, true)
  }

  ghost predicate ChildRefuses(cfg: Cfg, c: Child, k: int, d: seq<int>, reuse: bool) {
    PathRefuses(cfg, c.node, k, d, reuse)
  }

  ghost predicate KidsRefuse(cfg: Cfg, cs: seq<Child>, k: int, d: seq<int>, reuse: bool) {
    if cs == [] then true
    else if |cs| == 1 || !AtLeast(k, cs[1].key) then ChildRefuses(cfg, cs[0], k, d, reuse)
    else KidsRefuse(cfg, cs[1..], k, d, reuse)
  }

  lemma LeafFailsExactly(cfg: Cfg, es: seq<Item>, k: int, d: seq<int>, reuse: bool, lo: Sep, hi: High)
    requires ValidCfg(cfg) && Shape(cfg, Leaf(es), 0, lo, hi)
    ensures PutLeaf(cfg, es, k, d, reuse).PageFull? <==> LeafRefuses(cfg, es, k, d, reuse)
  {
    hide LeafSizes, LeafSize, Sum, AddToLeaf, LeafOk, Shape, Pos, NodeMax, Refuses;
    ShapeLeaf(cfg, es, lo, hi);
    NewItemFits(cfg, k, d);
    LeafHalves(cfg, es, lo, hi);
    var p := Pos(es, k);
    if p < |es| && es[p].key == k {
      var base := es[..p] + es[p + 1..];
      LeafWithout(cfg, es, p, lo, hi);
      LeafHalves(cfg, base, lo, hi);
      LeafFullExactly(cfg, base, p, NewItem(cfg, k, d));
    } else {
      LeafFullExactly(cfg, es, p, NewItem(cfg, k, d));
    }
  }

  lemma LeafHalves(cfg: Cfg, es: seq<Item>, lo: Sep, hi: High)
    requires LeafOk(cfg, es, lo, hi)
    ensures forall i :: 0 <= i < |es| ==> LeafSize(cfg, es[i]) <= cfg.pmax / 2
  {
    hide LeafSize;
  }

  lemma {:induction false} NodeFailsExactly(cfg: Cfg, n: Node, k: int, d: seq<int>, reuse: bool, h: nat, lo: Sep,
                                            hi: High)
    requires ValidCfg(cfg) && Full(n) && Shape(cfg, n, h, lo, hi) && AtLeast(k, lo) && Under(k, hi)
    ensures PutNode(cfg, n, k, d, reuse).PageFull? <==> PathRefuses(cfg, n, k, d, reuse)
    decreases h, 0
  {
    hide Kids, BranchSizes, BranchSize, Refuses, AddToBranch, KidsPutOk, PutLeaf, LeafRefuses, ValidCfg, Sum,
         KidsRefuse, PutKids;
    match n {
      case Leaf(es) => LeafFailsExactly(cfg, es, k, d, reuse, lo, hi);
      case Branch(cs) =>
        KidsFailExactly(cfg, cs, k, d, reuse, h - 1, lo, hi);
        var b := PutKidsOk(cfg, cs, k, d, reuse, h - 1, lo, hi);
        var r := PutKids(cfg, cs, k, d, reuse);
        if r.KidsDone? { BranchStep(cfg, cs, r, Item(k, d, b), h, lo, hi); }
    }
  }

  lemma BranchStep(cfg: Cfg, cs: seq<Child>, r: KidsResult, it: Item, h: nat, lo: Sep, hi: High)
    requires ValidCfg(cfg) && Full(Branch(cs)) && Shape(cfg, Branch(cs), h, lo, hi)
    requires r.KidsDone? && h > 0 && KidsPutOk(cfg, cs, r, it, h - 1, lo, hi)
    ensures r.newAt < |r.cs|
    ensures r.newAt > 0 ==> (AddToBranch(cfg, r.cs, r.newAt, r.leaves, r.branches).PageFull? <==>
                             Refuses(BranchSizes(cfg, cs), BranchSize(cfg, r.cs[r.newAt].key), r.newAt, cfg.pmax, true))
  {
    hide Kids, BranchSizes, BranchSize, Refuses, AddToBranch, Upd, Flat, KidLeaves, KidBranches, Sum;
    if r.newAt > 0 { BranchFullExactly(cfg, cs, r, h - 1, lo, hi); }
  }

  lemma {:induction false} KidsFailExactly(cfg: Cfg, cs: seq<Child>, k: int, d: seq<int>, reuse: bool, h: nat, lo: Sep,
                                           hi: High)
    requires ValidCfg(cfg) && cs != [] && Kids(cfg, cs, h, lo, hi) && AtLeast(k, lo) && Under(k, hi)
    ensures PutKids(cfg, cs, k, d, reuse).KidsFull? <==> KidsRefuse(cfg, cs, k, d, reuse)
    decreases h, 1, |cs|
  {
    hide Shape, PutNode, PathRefuses, ValidCfg;
    if |cs| == 1 || !AtLeast(k, cs[1].key) {
      RestAbove(cfg, cs, h, lo, hi, k);
      PutFirstKid(cfg, cs, k, d, reuse);
      NodeFailsExactly(cfg, cs[0].node, k, d, reuse, h, lo, FirstHigh(cs, hi));
      assert ChildRefuses(cfg, cs[0], k, d, reuse) == PathRefuses(cfg, cs[0].node, k, d, reuse);
    } else {
      KidsFailExactly(cfg, cs[1..], k, d, reuse, h, cs[1].key, hi);
    }
  }

  // ---------------------------------------------------------------- the whole database

  ghost predicate Present(s: seq<Item>, k: int) {
    exists i :: 0 <= i < |s| && s[i].key == k
  }

  lemma {:induction false} UpdLength(s: seq<Item>, it: Item)
    requires Increasing(s)
    ensures |Upd(s, it)| == |s| + if Present(s, it.key) then 0 else 1
  {
    if s != [] && s[0].key < it.key {
      UpdLength(s[1..], it);
      if Present(s, it.key) {
        var i :| 0 <= i < |s| && s[i].key == it.key;
        assert s[1..][i - 1].key == it.key;
      }
    }
  }

  lemma PresentConcat(s: seq<Item>, t: seq<Item>, k: int)
    ensures Present(s + t, k) <==> Present(s, k) || Present(t, k)
  {
    if Present(s, k) {
      var i :| 0 <= i < |s| && s[i].key == k;
      assert (s + t)[i].key == k;
    }
    if Present(t, k) {
      var i :| 0 <= i < |t| && t[i].key == k;
      assert (s + t)[|s| + i].key == k;
    }
  }

  lemma PosPresent(es: seq<Item>, k: int)
    requires Increasing(es)
    ensures Pos(es, k) < |es| && es[Pos(es, k)].key == k <==> Present(es, k)
  {
    hide Pos;
    var p := Pos(es, k);
    assert forall i :: p < i < |es| ==> es[p].key < es[i].key;
  }

  /** The search from the root finds a key exactly when the tree holds it. */
  lemma {:induction false} HasKeyIsPresent(cfg: Cfg, n: Node, k: int, h: nat, lo: Sep, hi: High)
    requires Shape(cfg, n, h, lo, hi)
    ensures HasKey(n, k) <==> Present(Items(n), k)
    decreases h, 0
  {
    match n {
      case Leaf(es) => PosPresent(es, k);
      case Branch(cs) =>
        KidsHaveKeyIsPresent(cfg, cs, k, h - 1, lo, hi);
    }
  }

  lemma {:induction false} KidsHaveKeyIsPresent(cfg: Cfg, cs: seq<Child>, k: int, h: nat, lo: Sep, hi: High)
    requires Kids(cfg, cs, h, lo, hi) && cs != []
    ensures KidsHaveKey(cs, k) <==> Present(Flat(cs), k)
    decreases h, 1, |cs|
  {
    PresentConcat(Items(cs[0].node), Flat(cs[1..]), k);
    if |cs| == 1 || !AtLeast(k, cs[1].key) {
      RestAbove(cfg, cs, h, lo, hi, k);
      HasKeyIsPresent(cfg, cs[0].node, k, h, lo, FirstHigh(cs, hi));
    } else {
      FirstBelow(cfg, cs, h, lo, hi, k);
      KidsHaveKeyIsPresent(cfg, cs[1..], k, h, cs[1].key, hi);
    }
  }

  /** A new root above the two halves of the old one. */
  lemma NewRootShape(cfg: Cfg, l: Node, sep: int, r: Node, h: nat)
    requires ValidCfg(cfg) && Full(l) && Full(r) && Shape(cfg, l, h, Blank, Below(sep))
    requires Shape(cfg, r, h, At(sep), Top)
    ensures var top := Branch([Child(Blank, l), Child(At(sep), r)]);
            && Full(top) && Shape(cfg, top, h + 1, Blank, Top) && Items(top) == Items(l) + Items(r)
            && Leaves(top) == Leaves(l) + Leaves(r) && Branches(top) == Branches(l) + Branches(r) + 1
  {
    var a, b := Child(Blank, l), Child(At(sep), r);
    assert [a, b] == [a] + [b];
    FlatConcat([a], [b]);
    FlatOne(a);
    FlatOne(b);
    NewRootKids(cfg, a, b, h);
    NewRootUsed(cfg, a, b);
    hide Items, Flat, KidLeaves, KidBranches, Kids, BranchSizes, Sum;
  }

  lemma NewRootKids(cfg: Cfg, a: Child, b: Child, h: nat)
    requires a.key.Blank? && b.key.At? && Full(a.node) && Full(b.node)
    requires Shape(cfg, a.node, h, Blank, Below(b.key.k)) && Shape(cfg, b.node, h, b.key, Top)
    ensures Kids(cfg, [a, b], h, Blank, Top)
  {
    hide Shape;
    assert [a, b][1..] == [b];
    assert Kids(cfg, [b], h, b.key, Top);
  }

  lemma NewRootUsed(cfg: Cfg, a: Child, b: Child)
    requires ValidCfg(cfg)
    ensures Sum(BranchSizes(cfg, [a, b])) <= cfg.pmax
  {
    QuarterNodes(cfg, [a, b]);
    hide BranchSizes, BranchSize;
    SumBound(BranchSizes(cfg, [a, b]), cfg.pmax / 4);
  }

  /** A put that is not refused keeps the database well-formed, with exact counters, and binds exactly key k to d. */
  lemma PutRefinesMap(cfg: Cfg, db: Db, k: int, d: seq<int>, reuse: bool)
    requires ValidCfg(cfg) && DbOk(cfg, db)
    ensures var r := Put(cfg, db, k, d, reuse);
            r.Ok? ==> DbOk(cfg, r.db) && ToMap(DbItems(r.db)) == ToMap(DbItems(db))[k := d]
  {
    if db.root == [] {
      PutFirst(cfg, db, k, d, reuse);
    } else {
      PutBelow(cfg, db, k, d, reuse);
    }
  }

  lemma PutFirst(cfg: Cfg, db: Db, k: int, d: seq<int>, reuse: bool)
    requires ValidCfg(cfg) && DbOk(cfg, db) && db.root == []
    ensures var r := Put(cfg, db, k, d, reuse);
            r.Ok? && DbOk(cfg, r.db) && ToMap(DbItems(r.db)) == ToMap(DbItems(db))[k := d]
  {
    var it := NewItem(cfg, k, d);
    NewItemFits(cfg, k, d);
    hide LeafSize, NodeMax, ValidCfg;
    assert [it][1..] == [];
    assert LeafSizes(cfg, [it]) == [LeafSize(cfg, it)];
    assert Sum([LeafSize(cfg, it)]) == LeafSize(cfg, it);
  }

  lemma PutBelow(cfg: Cfg, db: Db, k: int, d: seq<int>, reuse: bool)
    requires ValidCfg(cfg) && DbOk(cfg, db) && db.root != []
    ensures var r := Put(cfg, db, k, d, reuse);
            r.Ok? ==> DbOk(cfg, r.db) && ToMap(DbItems(r.db)) == ToMap(DbItems(db))[k := d]
  {
    hide Shape, Items, Full, Leaves, Branches, ValidCfg, PutOk, Upd, ToMap, HasKey, PutNode, Present;
    var root, h := db.root[0], db.depth - 1;
    var b := PutNodeOk(cfg, root, k, d, reuse, h, Blank, Top);
    var it := Item(k, d, b);
    ItemsOrdered(cfg, root, h, Blank, Top);
    HasKeyIsPresent(cfg, root, k, h, Blank, Top);
    UpdLength(Items(root), it);
    UpdMap(Items(root), it);
    NewRoot(cfg, db, k, d, reuse, it);
  }

  /** A put that is not refused binds key k to d and changes no other entry, and stores d where StoredAs says. */
  lemma PutStores(cfg: Cfg, db: Db, k: int, d: seq<int>, reuse: bool) returns (b: bool)
    requires ValidCfg(cfg) && DbOk(cfg, db)
    ensures StoredAs(cfg, DbItems(db), k, d, reuse, b)
    ensures var r := Put(cfg, db, k, d, reuse);
            r.Ok? ==> DbItems(r.db) == Upd(DbItems(db), Item(k, d, b))
  {
    hide Shape, Items, Full, Leaves, Branches, ValidCfg, PutOk, Upd, HasKey, PutNode, Present, StoredAs, NodeMax;
    if db.root == [] {
      StoredOnLeaf(cfg, [], k, d, reuse);
      b := NewItem(cfg, k, d).big;
      FirstUpd(NewItem(cfg, k, d));
    } else {
      var root, h := db.root[0], db.depth - 1;
      b := PutNodeOk(cfg, root, k, d, reuse, h, Blank, Top);
      ItemsOrdered(cfg, root, h, Blank, Top);
      HasKeyIsPresent(cfg, root, k, h, Blank, Top);
      UpdLength(Items(root), Item(k, d, b));
      NewRoot(cfg, db, k, d, reuse, Item(k, d, b));
    }
  }

  lemma FirstUpd(it: Item)
    ensures Upd([], it) == Items(Leaf([it]))
  {
  }

  lemma NewRoot(cfg: Cfg, db: Db, k: int, d: seq<int>, reuse: bool, it: Item)
    requires ValidCfg(cfg) && DbOk(cfg, db) && db.root != []
    requires PutOk(cfg, db.root[0], PutNode(cfg, db.root[0], k, d, reuse), it, db.depth - 1, Blank, Top)
    requires |Upd(Items(db.root[0]), it)| == |Items(db.root[0])| + if HasKey(db.root[0], k) then 0 else 1
    ensures var r := Put(cfg, db, k, d, reuse);
            r.Ok? ==> DbOk(cfg, r.db) && DbItems(r.db) == Upd(DbItems(db), it)
  {
    hide Shape, Items, Full, Leaves, Branches, ValidCfg, Upd, HasKey, PutNode;
    var p := PutNode(cfg, db.root[0], k, d, reuse);
    if p.Two? {
      NewRootShape(cfg, p.left, p.sep, p.right, db.depth - 1);
    }
  }

  // ---------------------------------------------------------------- when a put fails

  /** A put fails exactly when a page on its search path refuses. */
  lemma PutFailsExactly(cfg: Cfg, db: Db, k: int, d: seq<int>, reuse: bool)
    requires ValidCfg(cfg) && DbOk(cfg, db)
    ensures Put(cfg, db, k, d, reuse).Failed? <==> db.root != [] && PathRefuses(cfg, db.root[0], k, d, reuse)
  {
    hide Shape, Items, Full, Leaves, Branches, ValidCfg, HasKey, PutNode, PathRefuses;
    if db.root != [] {
      NodeFailsExactly(cfg, db.root[0], k, d, reuse, db.depth - 1, Blank, Top);
    }
  }

  /** Every node that a put may add takes more than a sixteenth of a page, so the sizes are always looked at. */
  ghost predicate LargeNodes(cfg: Cfg, it: Item) {
    LeafSize(cfg, it) > cfg.pmax / 16 && forall s: int :: BranchSize(cfg, At(s)) > cfg.pmax / 16
  }

  lemma LargeNodesNeverFail(cfg: Cfg, db: Db, k: int, d: seq<int>, reuse: bool)
    requires ValidCfg(cfg) && DbOk(cfg, db) && LargeNodes(cfg, NewItem(cfg, k, d))
    ensures Put(cfg, db, k, d, reuse).Ok?
  {
    PutFailsExactly(cfg, db, k, d, reuse);
    if db.root != [] {
      hide Put, ValidCfg, LargeNodes, Shape, Full, Items, Leaves, Branches, PathRefuses;
      LargeNodesPass(cfg, db.root[0], k, d, reuse, db.depth - 1, Blank, Top);
    }
  }

  lemma {:induction false} LargeNodesPass(cfg: Cfg, n: Node, k: int, d: seq<int>, reuse: bool, h: nat, lo: Sep,
                                          hi: High)
    requires ValidCfg(cfg) && Full(n) && Shape(cfg, n, h, lo, hi) && AtLeast(k, lo) && Under(k, hi)
    requires LargeNodes(cfg, NewItem(cfg, k, d))
    ensures !PathRefuses(cfg, n, k, d, reuse)
    decreases h, 0
  {
    hide Kids, LeafSizes, LeafSize, BranchSizes, BranchSize, HalfLoad, KidsPutOk, ValidCfg, Sum, KidsRefuse, PutKids,
         Pos, NewItem;
    match n {
      case Leaf(_) =>
      case Branch(cs) =>
        LargeKidsPass(cfg, cs, k, d, reuse, h - 1, lo, hi);
        var b := PutKidsOk(cfg, cs, k, d, reuse, h - 1, lo, hi);
        NewKeyIsAt(cfg, cs, PutKids(cfg, cs, k, d, reuse), Item(k, d, b), h - 1, lo, hi);
    }
  }

  lemma NewKeyIsAt(cfg: Cfg, cs: seq<Child>, r: KidsResult, it: Item, h: nat, lo: Sep, hi: High)
    requires KidsPutOk(cfg, cs, r, it, h, lo, hi)
    ensures r.KidsDone? && 0 < r.newAt < |r.cs| ==> r.cs[r.newAt].key.At?
  {
    hide Kids, Upd, Flat, KidLeaves, KidBranches;
  }

  lemma {:induction false} LargeKidsPass(cfg: Cfg, cs: seq<Child>, k: int, d: seq<int>, reuse: bool, h: nat, lo: Sep,
                                         hi: High)
    requires ValidCfg(cfg) && cs != [] && Kids(cfg, cs, h, lo, hi) && AtLeast(k, lo) && Under(k, hi)
    requires LargeNodes(cfg, NewItem(cfg, k, d))
    ensures !KidsRefuse(cfg, cs, k, d, reuse)
    decreases h, 1, |cs|
  {
    hide Shape, PathRefuses, ValidCfg, LargeNodes, NewItem;
    if |cs| == 1 || !AtLeast(k, cs[1].key) {
      RestAbove(cfg, cs, h, lo, hi, k);
      LargeNodesPass(cfg, cs[0].node, k, d, reuse, h, lo, FirstHigh(cs, hi));
      assert ChildRefuses(cfg, cs[0], k, d, reuse) == PathRefuses(cfg, cs[0].node, k, d, reuse);
    } else {
      LargeKidsPass(cfg, cs[1..], k, d, reuse, h, cs[1].key, hi);
    }
  }

  /** A page of 4080 bytes with ten nodes of 12 bytes, then ten of 396: keys 0, 2, .. 38. */
  function LopsidedLeaf(): (es: seq<Item>)
    ensures |es| == 20 && forall i :: 0 <= i < 20 ==> es[i] == Item(2 * i, Repeat(0, if i < 10 then 0 else 384), false)
  {
    seq(20, i => Item(2 * i, Repeat(0, if i < 10 then 0 else 384), false))
  }

  function TwoByteKeys(): Cfg {
    Cfg(4080, k => 2)
  }

  function LopsidedPage(): seq<nat> {
    Repeat(12, 10) + Repeat(396, 10)
  }

  lemma LopsidedSums()
    ensures Sum(LopsidedPage()) == 4080 && |LopsidedPage()| == 20 && HalfLoad(LopsidedPage(), 200, 16, false) == 4160
  {
    hide Sum, Repeat;
    RepeatSum(12, 10);
    RepeatSum(396, 10);
    SumConcat(Repeat(12, 10), Repeat(396, 10));
    assert LopsidedPage()[10..] == Repeat(396, 10);
  }

  lemma LopsidedSizes()
    ensures LeafSizes(TwoByteKeys(), LopsidedLeaf()) == LopsidedPage()
  {
    hide LeafSizes, Repeat;
    var es := LopsidedLeaf();
    var a, b := LeafSizes(TwoByteKeys(), es), LopsidedPage();
    forall i | 0 <= i < 20 ensures a[i] == b[i] { assert es[i].key == 2 * i; }
  }

  /** A put can fail on a well-formed database: 188 bytes under key 31 belong to the full half of this leaf. */
  lemma PutCanFail()
    ensures var cfg, db := TwoByteKeys(), Db([Leaf(LopsidedLeaf())], 20, 1, 1, 0);
            ValidCfg(cfg) && DbOk(cfg, db) && Put(cfg, db, 31, Repeat(0, 188), false).Failed?
  {
    hide LeafSizes, Sum, Pos, DbOk, Put, HalfLoad, LopsidedPage, LopsidedLeaf, Repeat;
    var cfg, es, d := TwoByteKeys(), LopsidedLeaf(), Repeat(0, 188);
    LopsidedSizes();
    LopsidedSums();
    LopsidedOk();
    PutFailsExactly(cfg, Db([Leaf(es)], 20, 1, 1, 0), 31, d, false);
    PosIs16();
    assert LeafSize(cfg, NewItem(cfg, 31, d)) == 200;
    assert LeafRefuses(cfg, es, 31, d, false);
  }

  lemma PosIs16()
    ensures Pos(LopsidedLeaf(), 31) == 16
  {
    var es := LopsidedLeaf();
    var p := Pos(es, 31);
    hide Pos;
    assert es[15].key == 30 && es[16].key == 32;
    assert p < 20 ==> es[p].key == 2 * p;
  }

  lemma LopsidedOk()
    ensures ValidCfg(TwoByteKeys()) && DbOk(TwoByteKeys(), Db([Leaf(LopsidedLeaf())], 20, 1, 1, 0))
  {
    hide LeafSizes, Sum, LopsidedPage, LopsidedLeaf, Repeat;
    LopsidedSizes();
    LopsidedSums();
    var cfg, es := TwoByteKeys(), LopsidedLeaf();
    forall i | 0 <= i < |es| ensures LeafSize(cfg, es[i]) <= cfg.pmax / 2 { assert es[i].key == 2 * i; }
    assert Shape(cfg, Leaf(es), 0, Blank, Top);
  }
}
