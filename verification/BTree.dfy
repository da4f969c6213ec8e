/** The B+tree of one database, as values: pages are nodes, a page's nodes are its sequence. */
module BTree {
  import opened Seqs
  import opened Split

  /** A leaf node; big says that the data is on an overflow page. Keys are ranks in md_cmp order. */
  datatype Item = Item(key: int, data: seq<int>, big: bool)

  /** A branch node's key; the first one on a page is blank and sorts before everything. */
  datatype Sep = Blank | At(k: int)

  datatype Child = Child(key: Sep, node: Node)

  datatype Node = Leaf(es: seq<Item>) | Branch(cs: seq<Child>)

  /** Exclusive upper bound of a subtree's keys. */
  datatype High = Top | Below(k: int)

  /** Page capacity without header, and the byte length of each key. */
  datatype Cfg = Cfg(pmax: nat, ksize: int -> nat)

  // ---------------------------------------------------------------- sizes

  /** A node is 8 bytes, the key and the data or an overflow page number, rounded to even; its pointer is 2. */
  function LeafSize(cfg: Cfg, it: Item): nat {
    Even(10 + cfg.ksize(it.key) + if it.big then 8 else |it.data|)
  }

  function BranchSize(cfg: Cfg, s: Sep): nat {
    Even(10 + if s.Blank? then 0 else cfg.ksize(s.k))
  }

  /** me_nodemax: two nodes with pointers fit a page. */
  function NodeMax(cfg: Cfg): int {
    cfg.pmax / 4 * 2 - 2
  }

  function NewItem(cfg: Cfg, k: int, d: seq<int>): Item {
    Item(k, d, 8 + cfg.ksize(k) + |d| > NodeMax(cfg))
  }

  /** The page is even-sized and the key limit keeps a branch node within a quarter page. */
  ghost predicate ValidCfg(cfg: Cfg) {
    && cfg.pmax >= 64 && cfg.pmax % 2 == 0
    && forall k: int :: Even(10 + cfg.ksize(k)) <= cfg.pmax / 4
  }

  function LeafSizes(cfg: Cfg, es: seq<Item>): (s: seq<nat>)
    ensures |s| == |es| && forall i :: 0 <= i < |s| ==> s[i] == LeafSize(cfg, es[i])
  {
    if es == [] then [] else [LeafSize(cfg, es[0])] + LeafSizes(cfg, es[1..])
  }

  function BranchSizes(cfg: Cfg, cs: seq<Child>): (s: seq<nat>)
    ensures |s| == |cs| && forall i :: 0 <= i < |s| ==> s[i] == BranchSize(cfg, cs[i].key)
  {
    if cs == [] then [] else [BranchSize(cfg, cs[0].key)] + BranchSizes(cfg, cs[1..])
  }

  function Used(cfg: Cfg, n: Node): nat {
    match n
    case Leaf(es) => Sum(LeafSizes(cfg, es))
    case Branch(cs) => Sum(BranchSizes(cfg, cs))
  }

  // ---------------------------------------------------------------- views

  /** NUMKEYS. */
  function Keys(n: Node): nat {
    match n
    case Leaf(es) => |es|
    case Branch(cs) => |cs|
  }

  /** The key/data pairs of a tree in order. */
  function Items(n: Node): seq<Item> {
    match n
    case Leaf(es) => es
    case Branch(cs) => Flat(cs)
  }

  function ChildItems(c: Child): seq<Item> {
    Items(c.node)
  }

  function Flat(cs: seq<Child>): seq<Item> {
    if cs == [] then [] else ChildItems(cs[0]) + Flat(cs[1..])
  }

  function ToMap(s: seq<Item>): map<int, seq<int>> {
    if s == [] then map[] else ToMap(s[1..])[s[0].key := s[0].data]
  }

  function Leaves(n: Node): nat {
    match n
    case Leaf(_) => 1
    case Branch(cs) => KidLeaves(cs)
  }

  function ChildLeaves(c: Child): nat {
    Leaves(c.node)
  }

  function KidLeaves(cs: seq<Child>): nat {
    if cs == [] then 0 else ChildLeaves(cs[0]) + KidLeaves(cs[1..])
  }

  function Branches(n: Node): nat {
    match n
    case Leaf(_) => 0
    case Branch(cs) => 1 + KidBranches(cs)
  }

  function ChildBranches(c: Child): nat {
    Branches(c.node)
  }

  function KidBranches(cs: seq<Child>): nat {
    if cs == [] then 0 else ChildBranches(cs[0]) + KidBranches(cs[1..])
  }

  // ---------------------------------------------------------------- well-formedness

  predicate AtLeast(k: int, lo: Sep) {
    lo.At? ==> lo.k <= k
  }

  predicate Under(k: int, hi: High) {
    hi.Below? ==> k < hi.k
  }

  predicate Increasing(s: seq<Item>) {
    forall i, j :: 0 <= i < j < |s| ==> s[i].key < s[j].key
  }

  predicate Within(s: seq<Item>, lo: Sep, hi: High) {
    forall i :: 0 <= i < |s| ==> AtLeast(s[i].key, lo) && Under(s[i].key, hi)
  }

  /** No page below the root is empty, no branch page has fewer than two children. */
  predicate Full(n: Node) {
    match n
    case Leaf(es) => es != []
    case Branch(cs) => |cs| >= 2
  }

  /** Upper bound of the first child of a list: the next child's separator. */
  function FirstHigh(cs: seq<Child>, hi: High): High {
    if |cs| > 1 && cs[1].key.At? then Below(cs[1].key.k) else hi
  }

  /** Height h, keys in order within [lo, hi), separators bounding, every page within its capacity.
      The page itself may be short of nodes; every page below it is not. */
  ghost predicate Shape(cfg: Cfg, n: Node, h: nat, lo: Sep, hi: High)
    decreases h, 0
  {
    Used(cfg, n) <= cfg.pmax &&
    match n
    case Leaf(es) =>
      h == 0 && Increasing(es) && Within(es, lo, hi) && forall i :: 0 <= i < |es| ==>
        LeafSize(cfg, es[i]) <= cfg.pmax / 2
    case Branch(cs) =>
      h > 0 && cs != [] && cs[0].key.Blank? && Kids(cfg, cs, h - 1, lo, hi)
  }

  ghost predicate Kids(cfg: Cfg, cs: seq<Child>, h: nat, lo: Sep, hi: High)
    decreases h, 1, |cs|
  {
    cs != [] ==>
      && Full(cs[0].node)
      && Shape(cfg, cs[0].node, h, lo, FirstHigh(cs, hi))
      && (|cs| > 1 ==> cs[1].key.At? && Kids(cfg, cs[1..], h, cs[1].key, hi))
  }

  // ---------------------------------------------------------------- order of the items

  lemma IncreasingConcat(s: seq<Item>, t: seq<Item>, k: int)
    requires Increasing(s) && Increasing(t)
    requires (forall i :: 0 <= i < |s| ==> s[i].key < k) && (forall i :: 0 <= i < |t| ==> k <= t[i].key)
    ensures Increasing(s + t)
  {
  }

  /** The in-order items of a well-formed tree are increasing and within its bounds. */
  lemma {:induction false} ItemsOrdered(cfg: Cfg, n: Node, h: nat, lo: Sep, hi: High)
    requires Shape(cfg, n, h, lo, hi)
    ensures Increasing(Items(n)) && Within(Items(n), lo, hi) && (Full(n) ==> Items(n) != [])
    decreases h, 0
  {
    match n {
      case Leaf(es) =>
      case Branch(cs) => FlatOrdered(cfg, cs, h - 1, lo, hi);
    }
  }

  lemma {:induction false} FlatOrdered(cfg: Cfg, cs: seq<Child>, h: nat, lo: Sep, hi: High)
    requires Kids(cfg, cs, h, lo, hi)
    ensures Increasing(Flat(cs)) && Within(Flat(cs), lo, hi) && (cs != [] ==> Flat(cs) != [])
    ensures |cs| > 1 ==> AtLeast(cs[1].key.k, lo) && Under(cs[1].key.k, hi)
    decreases h, 1, |cs|
  {
    if cs != [] {
      ItemsOrdered(cfg, cs[0].node, h, lo, FirstHigh(cs, hi));
      var a := Items(cs[0].node);
      if |cs| > 1 {
        FlatOrdered(cfg, cs[1..], h, cs[1].key, hi);
        var b := Flat(cs[1..]);
        IncreasingConcat(a, b, cs[1].key.k);
        assert AtLeast(a[0].key, lo) && Under(a[0].key, Below(cs[1].key.k));
        assert AtLeast(b[0].key, cs[1].key) && Under(b[0].key, hi);
      } else {
        assert cs[1..] == [];
      }
    }
  }

  // ---------------------------------------------------------------- update of the ordered sequence

  /** The ordered sequence with it.key bound to `it`. */
  function Upd(s: seq<Item>, it: Item): seq<Item> {
    if s == [] || it.key < s[0].key then [it] + s
    else if it.key == s[0].key then [it] + s[1..]
    else [s[0]] + Upd(s[1..], it)
  }

  /** The ordered sequence without key k. */
  function Del(s: seq<Item>, k: int): seq<Item> {
    if s == [] then []
    else if k == s[0].key then s[1..]
    else [s[0]] + Del(s[1..], k)
  }

  lemma {:induction false} UpdMap(s: seq<Item>, it: Item)
    requires Increasing(s)
    ensures ToMap(Upd(s, it)) == ToMap(s)[it.key := it.data]
  {
    if s == [] || it.key < s[0].key {
      assert ([it] + s)[1..] == s;
    } else if it.key == s[0].key {
      assert ([it] + s[1..])[1..] == s[1..];
    } else {
      UpdMap(s[1..], it);
      assert ([s[0]] + Upd(s[1..], it))[1..] == Upd(s[1..], it);
    }
  }

  lemma {:induction false} MapKeys(s: seq<Item>, k: int)
    ensures k in ToMap(s) <==> exists i :: 0 <= i < |s| && s[i].key == k
  {
    if s != [] {
      MapKeys(s[1..], k);
      if exists i :: 0 <= i < |s| && s[i].key == k {
        var i :| 0 <= i < |s| && s[i].key == k;
        if i > 0 { assert s[1..][i - 1].key == k; }
      }
      if s[0].key != k && k in ToMap(s) {
        var i :| 0 <= i < |s[1..]| && s[1..][i].key == k;
        assert s[i + 1].key == k;
      }
    }
  }

  lemma {:induction false} DelMap(s: seq<Item>, k: int)
    requires Increasing(s)
    ensures ToMap(Del(s, k)) == ToMap(s) - {k}
  {
    if s != [] {
      MapKeys(s[1..], s[0].key);
      if k != s[0].key {
        DelMap(s[1..], k);
        assert ([s[0]] + Del(s[1..], k))[1..] == Del(s[1..], k);
      }
    }
  }

  lemma {:induction false} UpdLeft(a: seq<Item>, b: seq<Item>, it: Item)
    requires forall i :: 0 <= i < |b| ==> it.key < b[i].key
    ensures Upd(a + b, it) == Upd(a, it) + b
  {
    if a == [] {
      assert a + b == b;
    } else {
      assert (a + b)[1..] == a[1..] + b;
      UpdLeft(a[1..], b, it);
    }
  }

  lemma {:induction false} UpdRight(a: seq<Item>, b: seq<Item>, it: Item)
    requires forall i :: 0 <= i < |a| ==> a[i].key < it.key
    ensures Upd(a + b, it) == a + Upd(b, it)
  {
    if a == [] {
      assert a + b == b;
    } else {
      assert (a + b)[1..] == a[1..] + b;
      UpdRight(a[1..], b, it);
    }
  }

  lemma {:induction false} DelLeft(a: seq<Item>, b: seq<Item>, k: int)
    requires forall i :: 0 <= i < |b| ==> k < b[i].key
    ensures Del(a + b, k) == Del(a, k) + b
  {
    if a == [] {
      assert a + b == b;
      DelAbsent(b, k);
    } else {
      assert (a + b)[1..] == a[1..] + b;
      DelLeft(a[1..], b, k);
    }
  }

  lemma {:induction false} DelAbsent(b: seq<Item>, k: int)
    requires forall i :: 0 <= i < |b| ==> k != b[i].key
    ensures Del(b, k) == b
  {
    if b != [] { DelAbsent(b[1..], k); }
  }

  lemma {:induction false} DelRight(a: seq<Item>, b: seq<Item>, k: int)
    requires forall i :: 0 <= i < |a| ==> a[i].key < k
    ensures Del(a + b, k) == a + Del(b, k)
  {
    if a == [] {
      assert a + b == b;
    } else {
      assert (a + b)[1..] == a[1..] + b;
      DelRight(a[1..], b, k);
    }
  }
}
