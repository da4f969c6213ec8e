/** Positions in a B+tree as paths of child indices: the specification of cursor movement. */
module CursorPath {
  import opened BTree
  import opened BTreePut
  import opened BTreeDel

  /** p names a page: the child index to take on each level. */
  ghost predicate OnPath(n: Node, p: seq<nat>)
    decreases |p|
  {
    p == [] || (n.Branch? && p[0] < |n.cs| && OnPath(n.cs[p[0]].node, p[1..]))
  }

  /** The page that p names. */
  function Reach(n: Node, p: seq<nat>): Node
    decreases |p|
  {
    if p == [] then n
    else
      match n
      case Leaf(_) => n
      case Branch(cs) => if p[0] < |cs| then Reach(cs[p[0]].node, p[1..]) else n
  }

  /** Number of items to the left of the page that p names. */
  function Before(n: Node, p: seq<nat>): nat
    decreases |p|
  {
    if p == [] then 0
    else
      match n
      case Leaf(_) => 0
      case Branch(cs) => if p[0] < |cs| then |Flat(cs[..p[0]])| + Before(cs[p[0]].node, p[1..]) else 0
  }

  datatype Move = NoMove | To(p: seq<nat>)

  /** The neighbour page on the same level; under a new parent it is the parent's first or last child. */
  function Neighbour(n: Node, p: seq<nat>, right: bool): (m: Move)
    ensures m.To? ==> |m.p| == |p|
    decreases |p|
  {
    if p == [] then NoMove
    else
      var q, i := p[..|p| - 1], p[|p| - 1];
      if right && i + 1 < Keys(Reach(n, q)) then To(q + [i + 1])
      else if !right && i > 0 then To(q + [i - 1])
      else
        match Neighbour(n, q, right)
        case NoMove => NoMove
        case To(r) => To(r + [if right || Keys(Reach(n, r)) == 0 then 0 else Keys(Reach(n, r)) - 1])
  }

  /** Where a search goes: to the first leaf, the last leaf or the leaf for a key. */
  datatype Target = Leftmost | Rightmost | ByKey(k: int)

  function Choose(cs: seq<Child>, t: Target): (i: nat)
    ensures cs != [] ==> i < |cs|
  {
    match t
    case Leftmost => 0
    case Rightmost => if cs == [] then 0 else |cs| - 1
    case ByKey(k) => ChildIndex(cs, k)
  }

  function Descend(n: Node, t: Target): seq<nat> {
    match n
    case Leaf(_) => []
    case Branch(cs) => if cs == [] then [] else [Choose(cs, t)] + DescendChild(cs[Choose(cs, t)], t)
  }

  function DescendChild(c: Child, t: Target): seq<nat> {
    Descend(c.node, t)
  }

  // ---------------------------------------------------------------- paths from the end

  /** One level further down. */
  lemma {:induction false} Snoc(n: Node, p: seq<nat>, i: nat)
    requires OnPath(n, p)
    ensures OnPath(n, p + [i]) <==> Reach(n, p).Branch? && i < |Reach(n, p).cs|
    ensures OnPath(n, p + [i]) ==>
      && Reach(n, p + [i]) == Reach(n, p).cs[i].node
      && Before(n, p + [i]) == Before(n, p) + |Flat(Reach(n, p).cs[..i])|
    decreases p
  {
    if p == [] {
      var one := p + [i];
      assert one == [i] && one[1..] == [];
    } else {
      Snoc(n.cs[p[0]].node, p[1..], i);
      assert (p + [i])[1..] == p[1..] + [i];
    }
  }

  lemma {:induction false} PrefixOnPath(n: Node, p: seq<nat>, t: nat)
    requires OnPath(n, p) && t <= |p|
    ensures OnPath(n, p[..t])
    decreases p
  {
    if t > 0 {
      PrefixOnPath(n.cs[p[0]].node, p[1..], t - 1);
      assert p[..t][1..] == p[1..][..t - 1];
    }
  }

  /** The page at the end of a path is well-formed, within some bounds, and a leaf exactly at full length. */
  lemma {:induction false} ReachShape(cfg: Cfg, n: Node, p: seq<nat>, h: nat, lo: Sep, hi: High)
    returns (lo': Sep, hi': High)
    requires OnPath(n, p) && Shape(cfg, n, h, lo, hi) && Full(n)
    ensures |p| <= h && Full(Reach(n, p)) && Shape(cfg, Reach(n, p), h - |p|, lo', hi')
    ensures Reach(n, p).Leaf? <==> |p| == h
    decreases p
  {
    if p == [] {
      lo', hi' := lo, hi;
    } else {
      ChildBounds(cfg, n.cs, p[0], h - 1, lo, hi);
      lo', hi' := ReachShape(cfg, n.cs[p[0]].node, p[1..], h - 1, LoAt(n.cs, p[0], lo), HiAt(n.cs, p[0] + 1, hi));
    }
  }

  lemma FlatFirst(cs: seq<Child>, i: nat)
    requires i < |cs|
    ensures |Flat(cs[..i + 1])| == |Flat(cs[..i])| + |Items(cs[i].node)|
  {
    assert cs[..i + 1] == cs[..i] + [cs[i]];
    FlatConcat(cs[..i], [cs[i]]);
    FlatOne(cs[i]);
  }

  lemma FlatWhole(cs: seq<Child>)
    ensures Flat(cs[..0]) == [] && cs[..|cs|] == cs
  {
    assert cs[..0] == [];
  }

  /** The items of the page at the end of a path sit at Before in the whole order. */
  lemma {:induction false} ItemsAt(n: Node, p: seq<nat>)
    requires OnPath(n, p)
    ensures Before(n, p) + |Items(Reach(n, p))| <= |Items(n)|
    ensures Items(n)[Before(n, p)..Before(n, p) + |Items(Reach(n, p))|] == Items(Reach(n, p))
    decreases p
  {
    if p != [] {
      var cs, i := n.cs, p[0];
      ItemsAt(cs[i].node, p[1..]);
      assert Before(n, p) == |Flat(cs[..i])| + Before(cs[i].node, p[1..]);
      hide Flat, Before, OnPath;
      FlatAround(cs, i, [cs[i]], i + 1);
      FlatOne(cs[i]);
      assert cs[..i] + [cs[i]] + cs[i + 1..] == cs;
    }
  }

  // ---------------------------------------------------------------- the neighbour

  /** The neighbour of child i of the page that q names. */
  function Beside(n: Node, q: seq<nat>, i: nat, right: bool): Move {
    if right && i + 1 < Keys(Reach(n, q)) then To(q + [i + 1])
    else if !right && i > 0 then To(q + [i - 1])
    else if Neighbour(n, q, right).NoMove? then NoMove
    else
      var r := Neighbour(n, q, right).p;
      To(r + [if right || Keys(Reach(n, r)) == 0 then 0 else Keys(Reach(n, r)) - 1])
  }

  lemma NeighbourSnoc(n: Node, q: seq<nat>, i: nat, right: bool)
    ensures Neighbour(n, q + [i], right) == Beside(n, q, i, right)
  {
    hide Reach, Keys;
    var p := q + [i];
    assert p[..|p| - 1] == q;
  }

  /** Moving right goes to the page whose items come next; it fails exactly on the rightmost page. */
  lemma {:induction false} RightNeighbour(cfg: Cfg, n: Node, p: seq<nat>, h: nat, lo: Sep, hi: High)
    requires OnPath(n, p) && Shape(cfg, n, h, lo, hi) && Full(n)
    ensures match Neighbour(n, p, true)
            case NoMove => Before(n, p) + |Items(Reach(n, p))| == |Items(n)|
            case To(r) => OnPath(n, r) && |r| == |p| && Before(n, r) == Before(n, p) + |Items(Reach(n, p))|
    decreases |p|
  {
    if p != [] {
      hide Shape, Full, Reach, Before, OnPath, Flat, Neighbour;
      var q, i := p[..|p| - 1], p[|p| - 1];
      assert p == q + [i];
      PrefixOnPath(n, p, |p| - 1);
      Snoc(n, q, i);
      NeighbourSnoc(n, q, i, true);
      var cs := Reach(n, q).cs;
      FlatFirst(cs, i);
      if i + 1 < |cs| {
        Snoc(n, q, i + 1);
      } else {
        RightNeighbour(cfg, n, q, h, lo, hi);
        FlatWhole(cs);
        var m := Neighbour(n, q, true);
        if m.To? { ChildrenOf(cfg, n, m.p, q, h, lo, hi); }
      }
    }
  }

  /** The first child of a neighbour page. */
  lemma ChildrenOf(cfg: Cfg, n: Node, r: seq<nat>, q: seq<nat>, h: nat, lo: Sep, hi: High)
    requires OnPath(n, r) && OnPath(n, q) && |r| == |q| && Reach(n, q).Branch? && Shape(cfg, n, h, lo, hi) && Full(n)
    ensures Reach(n, r).Branch? && |Reach(n, r).cs| >= 2
    ensures OnPath(n, r + [0]) && Before(n, r + [0]) == Before(n, r)
    ensures var e := |Reach(n, r).cs| - 1;
            OnPath(n, r + [e]) && Before(n, r + [e]) + |Items(Reach(n, r + [e]))| == Before(n, r) + |Items(Reach(n, r))|
  {
    var a, b := ReachShape(cfg, n, r, h, lo, hi);
    var c, d := ReachShape(cfg, n, q, h, lo, hi);
    hide Shape;
    var cs := Reach(n, r).cs;
    Snoc(n, r, 0);
    Snoc(n, r, |cs| - 1);
    FlatWhole(cs);
    FlatFirst(cs, |cs| - 1);
  }

  /** Moving left goes to the page whose items come just before; it fails exactly on the leftmost page. */
  lemma {:induction false} LeftNeighbour(cfg: Cfg, n: Node, p: seq<nat>, h: nat, lo: Sep, hi: High)
    requires OnPath(n, p) && Shape(cfg, n, h, lo, hi) && Full(n)
    ensures match Neighbour(n, p, false)
            case NoMove => Before(n, p) == 0
            case To(r) => OnPath(n, r) && |r| == |p| && Before(n, r) + |Items(Reach(n, r))| == Before(n, p)
    decreases |p|
  {
    if p != [] {
      hide Shape, Full, Reach, Before, OnPath, Flat, Neighbour, Items;
      var q, i := p[..|p| - 1], p[|p| - 1];
      assert p == q + [i];
      PrefixOnPath(n, p, |p| - 1);
      Snoc(n, q, i);
      NeighbourSnoc(n, q, i, false);
      if i > 0 {
        LeftInParent(n, q, i);
      } else {
        LeftNeighbour(cfg, n, q, h, lo, hi);
        FlatWhole(Reach(n, q).cs);
        LeftOfParent(cfg, n, q, h, lo, hi);
      }
    }
  }

  lemma LeftOfParent(cfg: Cfg, n: Node, q: seq<nat>, h: nat, lo: Sep, hi: High)
    requires OnPath(n, q) && Reach(n, q).Branch? && Shape(cfg, n, h, lo, hi) && Full(n)
    requires var m := Neighbour(n, q, false);
             m.To? ==> OnPath(n, m.p) && Before(n, m.p) + |Items(Reach(n, m.p))| == Before(n, q)
    ensures var m := Beside(n, q, 0, false);
            && (m.NoMove? <==> Neighbour(n, q, false).NoMove?)
            && (m.To? ==> OnPath(n, m.p) && |m.p| == |q| + 1 && Before(n, m.p) + |Items(Reach(n, m.p))| == Before(n, q))
  {
    hide Shape, Full, Reach, Before, OnPath, Flat, Neighbour, Items;
    var m := Neighbour(n, q, false);
    if m.To? { ChildrenOf(cfg, n, m.p, q, h, lo, hi); }
  }

  lemma LeftInParent(n: Node, q: seq<nat>, i: nat)
    requires i > 0 && OnPath(n, q) && OnPath(n, q + [i])
    ensures var r := q + [i - 1];
            OnPath(n, r) && Before(n, r) + |Items(Reach(n, r))| == Before(n, q + [i])
  {
    hide Reach, Before, OnPath, Flat, Items;
    Snoc(n, q, i);
    Snoc(n, q, i - 1);
    FlatFirst(Reach(n, q).cs, i - 1);
  }

  // ---------------------------------------------------------------- searching

  lemma Chosen(cfg: Cfg, cs: seq<Child>, t: Target, h: nat, lo: Sep, hi: High)
    requires cs != [] && Kids(cfg, cs, h, lo, hi) && (t.ByKey? ==> AtLeast(t.k, lo) && Under(t.k, hi))
    ensures t.ByKey? ==> AtLeast(t.k, LoAt(cs, Choose(cs, t), lo)) && Under(t.k, HiAt(cs, Choose(cs, t) + 1, hi))
  {
    if t.ByKey? { ChildIndexBounds(cfg, cs, t.k, h, lo, hi); }
  }

  /** A descent ends on a leaf: the first one, the last one, or one whose bounds hold the key. */
  lemma {:induction false} DescendReaches(cfg: Cfg, n: Node, t: Target, h: nat, lo: Sep, hi: High)
    requires Shape(cfg, n, h, lo, hi) && Full(n) && (t.ByKey? ==> AtLeast(t.k, lo) && Under(t.k, hi))
    ensures var p := Descend(n, t);
            && OnPath(n, p) && |p| == h && Reach(n, p).Leaf?
            && (t.Leftmost? ==> Before(n, p) == 0)
            && (t.Rightmost? ==> Before(n, p) + |Items(Reach(n, p))| == |Items(n)|)
    decreases h
  {
    match n {
      case Leaf(_) =>
      case Branch(cs) =>
        var i := Choose(cs, t);
        Chosen(cfg, cs, t, h - 1, lo, hi);
        ChildBounds(cfg, cs, i, h - 1, lo, hi);
        DescendReaches(cfg, cs[i].node, t, h - 1, LoAt(cs, i, lo), HiAt(cs, i + 1, hi));
        DescendStep(cs, t);
        FlatWhole(cs);
        if t.Rightmost? { FlatFirst(cs, i); }
    }
  }

  lemma DescendStep(cs: seq<Child>, t: Target)
    requires cs != []
    ensures var n, i := Branch(cs), Choose(cs, t);
            var p, q := Descend(n, t), Descend(cs[i].node, t);
            && p == [i] + q && p[1..] == q && Reach(n, p) == Reach(cs[i].node, q)
            && Before(n, p) == |Flat(cs[..i])| + Before(cs[i].node, q)
            && (OnPath(cs[i].node, q) ==> OnPath(n, p))
  {
    var i := Choose(cs, t);
    assert DescendChild(cs[i], t) == Descend(cs[i].node, t);
    var p := [i] + Descend(cs[i].node, t);
    assert p[1..] == Descend(cs[i].node, t);
  }

  lemma {:induction false} PosSmaller(a: seq<Item>, b: seq<Item>, k: int)
    requires AllBelow(a, k)
    ensures Pos(a + b, k) == |a| + Pos(b, k)
  {
    if a == [] {
      assert a + b == b;
    } else {
      assert (a + b)[1..] == a[1..] + b;
      PosSmaller(a[1..], b, k);
    }
  }

  lemma {:induction false} PosLarger(a: seq<Item>, b: seq<Item>, k: int)
    requires AllAbove(b, k)
    ensures Pos(a + b, k) == Pos(a, k)
  {
    if a == [] {
      assert a + b == b;
    } else if a[0].key < k {
      assert (a + b)[1..] == a[1..] + b;
      PosLarger(a[1..], b, k);
    }
  }

  /** The position of a key in its leaf is its position among all items. */
  lemma {:induction false} SearchRank(cfg: Cfg, n: Node, k: int, h: nat, lo: Sep, hi: High)
    requires Shape(cfg, n, h, lo, hi) && Full(n) && AtLeast(k, lo) && Under(k, hi)
    ensures var p := Descend(n, ByKey(k));
            Before(n, p) + Pos(Items(Reach(n, p)), k) == Pos(Items(n), k)
    decreases h
  {
    match n {
      case Leaf(_) =>
      case Branch(cs) =>
        var i := ChildIndex(cs, k);
        ChildIndexBounds(cfg, cs, k, h - 1, lo, hi);
        ChildBounds(cfg, cs, i, h - 1, lo, hi);
        SearchRank(cfg, cs[i].node, k, h - 1, LoAt(cs, i, lo), HiAt(cs, i + 1, hi));
        DescendStep(cs, ByKey(k));
        hide Shape, Kids, Before, Reach, Descend, Flat;
        PosInList(cfg, cs, i, k, h - 1, lo, hi);
    }
  }

  /** A key is in the tree exactly when it is on the leaf that the search reaches. */
  lemma {:induction false} SearchPresent(cfg: Cfg, n: Node, k: int, h: nat, lo: Sep, hi: High)
    requires Shape(cfg, n, h, lo, hi) && Full(n) && AtLeast(k, lo) && Under(k, hi)
    ensures Present(Items(n), k) <==> Present(Items(Reach(n, Descend(n, ByKey(k)))), k)
    decreases h
  {
    match n {
      case Leaf(_) =>
      case Branch(cs) =>
        var i := ChildIndex(cs, k);
        ChildIndexBounds(cfg, cs, k, h - 1, lo, hi);
        ChildBounds(cfg, cs, i, h - 1, lo, hi);
        SearchPresent(cfg, cs[i].node, k, h - 1, LoAt(cs, i, lo), HiAt(cs, i + 1, hi));
        DescendStep(cs, ByKey(k));
        hide Shape, Kids, Before, Reach, Descend, Flat, Present;
        NotInList(cfg, cs, i, k, h - 1, lo, hi);
    }
  }

  lemma PosInList(cfg: Cfg, cs: seq<Child>, i: nat, k: int, h: nat, lo: Sep, hi: High)
    requires i < |cs| && Kids(cfg, cs, h, lo, hi) && AtLeast(k, LoAt(cs, i, lo)) && Under(k, HiAt(cs, i + 1, hi))
    ensures Pos(Flat(cs), k) == |Flat(cs[..i])| + Pos(Items(cs[i].node), k)
  {
    hide Kids, Flat, Items, LoAt, HiAt, AtLeast, Under, AllBelow, AllAbove, Pos;
    OthersApart(cfg, cs, i, k, h, lo, hi);
    FlatAround(cs, i, [cs[i]], i + 1);
    FlatOne(cs[i]);
    assert cs[..i] + [cs[i]] + cs[i + 1..] == cs;
    var x, y, z := Flat(cs[..i]), Items(cs[i].node), Flat(cs[i + 1..]);
    PosLarger(x + y, z, k);
    PosSmaller(x, y, k);
  }

  /** No page on the path has a right neighbour. */
  ghost predicate RightEdge(n: Node, p: seq<nat>)
    decreases |p|
  {
    p != [] ==> n.Branch? && p[0] < |n.cs| && p[0] == |n.cs| - 1 && RightEdge(n.cs[p[0]].node, p[1..])
  }

  /** The separators decide which child holds a key. */
  lemma {:induction false} ChildIndexUnique(cfg: Cfg, cs: seq<Child>, i: nat, k: int, h: nat, lo: Sep, hi: High)
    requires i < |cs| && Kids(cfg, cs, h, lo, hi) && AtLeast(k, LoAt(cs, i, lo)) && Under(k, HiAt(cs, i + 1, hi))
    ensures ChildIndex(cs, k) == i
    decreases i
  {
    if i > 0 {
      var t := cs[1..];
      assert t[i - 1] == cs[i];
      assert i + 1 < |cs| ==> t[i] == cs[i + 1];
      if i > 1 {
        KidsCut(cfg, t, i - 1, h, cs[1].key, hi);
        assert AtLeast(cs[i].key.k, cs[1].key);
      }
      ChildIndexUnique(cfg, t, i - 1, k, h, cs[1].key, hi);
    }
  }

  /** A key within a leaf's first and last key, or after the last key of all leaves, belongs to that leaf. */
  lemma {:induction false} StaysOnLeaf(cfg: Cfg, n: Node, p: seq<nat>, k: int, h: nat, lo: Sep, hi: High)
    requires Shape(cfg, n, h, lo, hi) && Full(n) && OnPath(n, p) && Reach(n, p).Leaf? && Under(k, hi)
    requires var es := Reach(n, p).es;
             es != [] && es[0].key <= k && (k <= es[|es| - 1].key || RightEdge(n, p))
    ensures Descend(n, ByKey(k)) == p
    decreases h
  {
    if p != [] {
      var cs, i, c := n.cs, p[0], n.cs[p[0]].node;
      var es := Reach(n, p).es;
      hide Kids, Flat, Items, Descend, Before;
      ChildBounds(cfg, cs, i, h - 1, lo, hi);
      LeafInChild(cfg, c, p[1..], h - 1, LoAt(cs, i, lo), HiAt(cs, i + 1, hi));
      assert AtLeast(es[0].key, LoAt(cs, i, lo)) && Under(es[|es| - 1].key, HiAt(cs, i + 1, hi));
      ChildIndexUnique(cfg, cs, i, k, h - 1, lo, hi);
      StaysOnLeaf(cfg, c, p[1..], k, h - 1, LoAt(cs, i, lo), HiAt(cs, i + 1, hi));
      DescendStep(cs, ByKey(k));
      assert p == [i] + p[1..];
    }
  }

  lemma LeafInChild(cfg: Cfg, n: Node, p: seq<nat>, h: nat, lo: Sep, hi: High)
    requires Shape(cfg, n, h, lo, hi) && OnPath(n, p) && Reach(n, p).Leaf?
    ensures Within(Reach(n, p).es, lo, hi)
  {
    ItemsOrdered(cfg, n, h, lo, hi);
    ItemsAt(n, p);
    var es, b := Reach(n, p).es, Before(n, p);
    forall i | 0 <= i < |es| ensures AtLeast(es[i].key, lo) && Under(es[i].key, hi) {
      assert es[i] == Items(n)[b..b + |es|][i] == Items(n)[b + i];
    }
  }

  /** The right edge is where no items follow. */
  lemma {:induction false} RightEdgeIsEnd(cfg: Cfg, n: Node, p: seq<nat>, h: nat, lo: Sep, hi: High)
    requires Shape(cfg, n, h, lo, hi) && Full(n) && OnPath(n, p)
    ensures RightEdge(n, p) <==> Before(n, p) + |Items(Reach(n, p))| == |Items(n)|
    decreases |p|
  {
    if p != [] {
      var cs, i, c := n.cs, p[0], n.cs[p[0]].node;
      ChildBounds(cfg, cs, i, h - 1, lo, hi);
      RightEdgeIsEnd(cfg, c, p[1..], h - 1, LoAt(cs, i, lo), HiAt(cs, i + 1, hi));
      ItemsAt(c, p[1..]);
      RestOf(cfg, cs, i, h - 1, lo, hi);
    }
  }

  lemma RestOf(cfg: Cfg, cs: seq<Child>, i: nat, h: nat, lo: Sep, hi: High)
    requires i < |cs| && Kids(cfg, cs, h, lo, hi)
    ensures |Flat(cs)| >= |Flat(cs[..i])| + |Items(cs[i].node)|
    ensures i == |cs| - 1 <==> |Flat(cs)| == |Flat(cs[..i])| + |Items(cs[i].node)|
  {
    FlatAround(cs, i, [cs[i]], i + 1);
    FlatOne(cs[i]);
    assert cs[..i] + [cs[i]] + cs[i + 1..] == cs;
    if i + 1 < |cs| {
      KidsCut(cfg, cs, i + 1, h, lo, hi);
      FlatOrdered(cfg, cs[i + 1..], h, cs[i + 1].key, hi);
    } else {
      assert cs[i + 1..] == [];
    }
  }

  lemma FlatPrefix(cs: seq<Child>, i: nat, j: nat)
    requires i < j <= |cs|
    ensures |Flat(cs[..i])| + |Items(cs[i].node)| <= |Flat(cs[..j])|
  {
    FlatFirst(cs, i);
    var a, b := cs[..i + 1], cs[i + 1..j];
    assert cs[..j] == a + b;
    FlatConcat(a, b);
  }

  /** An item's rank names its leaf and its index: no two places hold the same item. */
  lemma {:induction false} RankIsPlace(n: Node, p: seq<nat>, i: nat, p': seq<nat>, i': nat)
    requires OnPath(n, p) && OnPath(n, p') && Reach(n, p).Leaf? && Reach(n, p').Leaf?
    requires i < |Reach(n, p).es| && i' < |Reach(n, p').es| && Before(n, p) + i == Before(n, p') + i'
    ensures p == p' && i == i'
    decreases |p|
  {
    if p != [] {
      var cs, a, b := n.cs, p[0], p'[0];
      ItemsAt(cs[a].node, p[1..]);
      ItemsAt(cs[b].node, p'[1..]);
      if a < b { FlatPrefix(cs, a, b); }
      if b < a { FlatPrefix(cs, b, a); }
      RankIsPlace(cs[a].node, p[1..], i, p'[1..], i');
      assert p == [a] + p[1..] && p' == [b] + p'[1..];
    }
  }
}
