/** mdb_env_cwalk: the compacting copy, a post-order walk that renumbers every page it writes. */
module Copy {
  import P = Pages
  import M = Mvcc
  import R = MvccRuns

  /** What a database holds, without page numbers. A value may fill 1 + extra overflow pages or be a database itself. */
  datatype Val =
    | Plain(key: int, data: seq<int>)
    | Over(key: int, extra: nat, data: seq<int>)
    | SubDb(key: int, info: int, root: Root)

  datatype Root = Empty | Full(t: Tree)

  datatype Tree = LeafT(vals: seq<Val>) | BranchT(keys: seq<int>, kids: seq<Tree>)

  /** Pages as they are in a data file; a root reference may be P_INVALID. */
  datatype Ref = Invalid | Pg(pg: nat)

  datatype Node = PlainN(key: int, data: seq<int>) | BigN(key: int, pg: nat) | SubN(key: int, info: int, root: Ref)

  datatype Page =
    | Meta
    | LeafP(nodes: seq<Node>)
    | BranchP(keys: seq<int>, refs: seq<nat>)
    | OverP(extra: nat, data: seq<int>)
    | More

  // ---------------------------------------------------------------- a file holds a tree

  /** Page pg of the file is the root of tree t. */
  ghost predicate Holds(f: seq<Page>, pg: nat, t: Tree)
    decreases t, 1
  {
    pg < |f| && PageHolds(f, f[pg], t)
  }

  ghost predicate PageHolds(f: seq<Page>, p: Page, t: Tree)
    decreases t, 0
  {
    match t
    case LeafT(vals) => p.LeafP? && |p.nodes| == |vals| && forall i :: 0 <= i < |vals| ==>
      NodeHolds(f, p.nodes[i], vals[i])
    case BranchT(keys, kids) =>
      p.BranchP? && p.keys == keys && kids != [] && |p.refs| == |kids| && forall i :: 0 <= i < |kids| ==>
        Holds(f, p.refs[i], kids[i])
  }

  ghost predicate NodeHolds(f: seq<Page>, n: Node, v: Val)
    decreases v
  {
    match v
    case Plain(key, data) => n == PlainN(key, data)
    case Over(key, extra, data) => n.BigN? && n.key == key && OverHolds(f, n.pg, extra, data)
    case SubDb(key, info, root) =>
      n.SubN? && n.key == key && n.info == info &&
      match root
      case Empty => n.root == Invalid
      case Full(t) => n.root.Pg? && Holds(f, n.root.pg, t)
  }

  ghost predicate OverHolds(f: seq<Page>, pg: nat, extra: nat, data: seq<int>) {
    pg + extra < |f| && f[pg] == OverP(extra, data) && forall i :: pg < i <= pg + extra ==> f[i] == More
  }

  /** Appending to the file disturbs nothing. */
  lemma {:induction false} HoldsMore(f: seq<Page>, g: seq<Page>, pg: nat, t: Tree)
    requires f <= g && Holds(f, pg, t)
    ensures Holds(g, pg, t)
    decreases t, 1
  {
    match t {
      case LeafT(vals) =>
        forall i | 0 <= i < |vals|
          ensures NodeHolds(g, f[pg].nodes[i], vals[i]) { NodeHoldsMore(f, g, f[pg].nodes[i], vals[i]); }
      case BranchT(_, kids) =>
        forall i | 0 <= i < |kids| ensures Holds(g, f[pg].refs[i], kids[i]) { HoldsMore(f, g, f[pg].refs[i], kids[i]); }
    }
  }

  lemma {:induction false} NodeHoldsMore(f: seq<Page>, g: seq<Page>, n: Node, v: Val)
    requires f <= g && NodeHolds(f, n, v)
    ensures NodeHolds(g, n, v)
    decreases v
  {
    match v {
      case Plain(_, _) =>
      case Over(_, _, _) =>
      case SubDb(_, _, root) =>
        match root {
          case Empty =>
          case Full(t) => HoldsMore(f, g, n.root.pg, t);
        }
    }
  }

  // ---------------------------------------------------------------- how many pages

  function CountVal(v: Val): nat {
    match v
    case Plain(_, _) => 0
    case Over(_, extra, _) => 1 + extra
    case SubDb(_, _, root) => match root case Empty => 0 case Full(t) => Count(t)
  }

  function CountVals(vals: seq<Val>): nat {
    if vals == [] then 0 else CountVal(vals[0]) + CountVals(vals[1..])
  }

  function CountKids(kids: seq<Tree>): nat {
    if kids == [] then 0 else Count(kids[0]) + CountKids(kids[1..])
  }

  /** Pages of a tree, its overflow pages and the databases nested in it. */
  function Count(t: Tree): nat {
    match t
    case LeafT(vals) => CountVals(vals) + 1
    case BranchT(_, kids) => CountKids(kids) + 1
  }

  // ---------------------------------------------------------------- the walk

  /** A branch page on the stack, its children before k + done rewritten. */
  ghost predicate Frame(src: seq<Page>, out: seq<Page>, p: Page, k: nat, t: Tree, done: nat) {
    && p.BranchP? && t.BranchT? && p.keys == t.keys && |p.refs| == |t.kids| && k < |t.kids|
    && (forall j :: 0 <= j < k + done && j < |t.kids| ==> Holds(out, p.refs[j], t.kids[j]))
    && forall j :: k + done <= j < |t.kids| ==> Holds(src, p.refs[j], t.kids[j])
  }

  /** All frames but the top one are waiting for their child k. */
  ghost predicate Waiting(src: seq<Page>, out: seq<Page>, pgs: seq<Page>, kis: seq<nat>, ts: seq<Tree>, n: nat) {
    && n <= |pgs| == |kis| == |ts|
    && (forall i :: 0 <= i < n ==> Frame(src, out, pgs[i], kis[i], ts[i], 0))
    && forall i :: 0 <= i < n && i + 1 < |ts| ==>
         ts[i].BranchT? && kis[i] < |ts[i].kids| && ts[i + 1] == ts[i].kids[kis[i]]
  }

  /** The top page: a leaf just read, or a branch page whose child k has been written. */
  ghost predicate OnTop(src: seq<Page>, out: seq<Page>, p: Page, k: nat, t: Tree) {
    if t.LeafT? then PageHolds(src, p, t) else Frame(src, out, p, k, t, 1)
  }

  /** Pages that a frame still has to write, its own page included, after child k. */
  function Left(k: nat, t: Tree): nat {
    match t
    case LeafT(_) => Count(t)
    case BranchT(_, kids) => (if k < |kids| then CountKids(kids[k + 1..]) else 0) + 1
  }

  function StackLeft(kis: seq<nat>, ts: seq<Tree>): nat
    requires |kis| == |ts|
  {
    if ts == [] then 0 else StackLeft(kis[..|ts| - 1], ts[..|ts| - 1]) + Left(kis[|ts| - 1], ts[|ts| - 1])
  }

  lemma StackPush(kis: seq<nat>, ts: seq<Tree>, k: nat, t: Tree)
    requires |kis| == |ts|
    ensures StackLeft(kis + [k], ts + [t]) == StackLeft(kis, ts) + Left(k, t)
  {
    assert (kis + [k])[..|ts|] == kis && (ts + [t])[..|ts|] == ts;
  }

  lemma NextKid(k: nat, t: Tree)
    requires t.BranchT? && k + 1 < |t.kids|
    ensures Left(k, t) == Left(k + 1, t) + Count(t.kids[k + 1])
  {
    var rest := t.kids[k + 1..];
    assert rest[1..] == t.kids[k + 2..];
  }

  lemma WaitingMore(src: seq<Page>, out: seq<Page>, out': seq<Page>, pgs: seq<Page>, kis: seq<nat>, ts: seq<Tree>,
                    n: nat)
    requires Waiting(src, out, pgs, kis, ts, n) && out <= out'
    ensures Waiting(src, out', pgs, kis, ts, n)
  {
    forall i | 0 <= i < n ensures Frame(src, out', pgs[i], kis[i], ts[i], 0) {
      FrameMore(src, out, out', pgs[i], kis[i], ts[i], 0);
    }
  }

  lemma FrameMore(src: seq<Page>, out: seq<Page>, out': seq<Page>, p: Page, k: nat, t: Tree, done: nat)
    requires Frame(src, out, p, k, t, done) && out <= out'
    ensures Frame(src, out', p, k, t, done)
  {
    forall j | 0 <= j < k + done && j < |t.kids| ensures Holds(out', p.refs[j], t.kids[j]) {
      HoldsMore(out, out', p.refs[j], t.kids[j]);
    }
  }

  lemma CountVal1(vals: seq<Val>, i: nat)
    requires i < |vals|
    ensures CountVals(vals[i..]) == CountVal(vals[i]) + CountVals(vals[i + 1..])
    ensures vals[i].SubDb? && vals[i].root.Full? ==> Count(vals[i].root.t) <= CountVals(vals)
  {
    assert vals[i..][1..] == vals[i + 1..];
    CountPart(vals, i);
  }

  lemma {:induction false} CountPart(vals: seq<Val>, i: nat)
    requires i <= |vals|
    ensures CountVals(vals[i..]) <= CountVals(vals)
  {
    if i > 0 {
      CountPart(vals[1..], i - 1);
      assert vals[1..][i - 1..] == vals[i..];
    } else {
      assert vals[0..] == vals;
    }
  }

  /** The continuation pages of an overflow run. */
  function Mores(n: nat): (s: seq<Page>)
    ensures |s| == n && forall i :: 0 <= i < n ==> s[i] == More
  {
    if n == 0 then [] else [More] + Mores(n - 1)
  }

  /** The nodes of a leaf: overflow runs and nested databases are written first, and the node gets the new number. */
  method WalkLeaf(src: seq<Page>, out0: seq<Page>, p: Page, ghost t: Tree) returns (out: seq<Page>, p': Page)
    requires t.LeafT? && PageHolds(src, p, t)
    ensures out0 <= out && |out| == |out0| + CountVals(t.vals) && PageHolds(out, p', t)
    decreases Count(t), 1
  {
    out := out0;
    var nodes, i := p.nodes, 0;
    assert t.vals[0..] == t.vals;
    while i < |nodes|
      invariant i <= |nodes| == |t.vals| && out0 <= out
      invariant |out| + CountVals(t.vals[i..]) == |out0| + CountVals(t.vals)
      invariant forall j :: 0 <= j < i ==> NodeHolds(out, nodes[j], t.vals[j])
      invariant forall j :: i <= j < |nodes| ==> NodeHolds(src, nodes[j], t.vals[j])
    {
      CountVal1(t.vals, i);
      ghost var before := out;
      var n;
      out, n := WalkNode(src, out, nodes[i], t.vals[i]);
      forall j | 0 <= j < i ensures NodeHolds(out, nodes[j], t.vals[j]) {
        NodeHoldsMore(before, out, nodes[j], t.vals[j]);
      }
      nodes := nodes[i := n];
      i := i + 1;
    }
    p' := LeafP(nodes);
  }

  method WalkNode(src: seq<Page>, out0: seq<Page>, n: Node, ghost v: Val) returns (out: seq<Page>, n': Node)
    requires NodeHolds(src, n, v)
    ensures out0 <= out && |out| == |out0| + CountVal(v) && NodeHolds(out, n', v)
    decreases CountVal(v), 4
  {
    match n {
      case PlainN(_, _) =>
        out, n' := out0, n;
      case BigN(key, pg) =>
        var omp := src[pg];
        n' := BigN(key, |out0|);
        out := out0 + [omp] + Mores(omp.extra);
      case SubN(key, info, root) =>
        match root {
          case Invalid => out, n' := out0, n;
          case Pg(pg) =>
            var new';
            out, new' := Walk(src, out0, pg, v.root.t);
            n' := SubN(key, info, Pg(new'));
        }
    }
  }

  /** The stack is linked to a child that is to be pushed. */
  ghost predicate Linked(kis: seq<nat>, ts: seq<Tree>, t: Tree) {
    |kis| == |ts| && (ts != [] ==>
      ts[|ts| - 1].BranchT? && kis[|ts| - 1] < |ts[|ts| - 1].kids| && ts[|ts| - 1].kids[kis[|ts| - 1]] == t)
  }

  lemma WaitingPush(src: seq<Page>, out: seq<Page>, pgs: seq<Page>, kis: seq<nat>, ts: seq<Tree>, p: Page, k: nat,
                    t: Tree)
    requires Waiting(src, out, pgs, kis, ts, |ts|) && Linked(kis, ts, t)
    ensures Waiting(src, out, pgs + [p], kis + [k], ts + [t], |ts|)
    ensures Frame(src, out, p, k, t, 0) ==> Waiting(src, out, pgs + [p], kis + [k], ts + [t], |ts| + 1)
  {
    hide Frame;
  }

  lemma BranchRead(src: seq<Page>, out: seq<Page>, pg: nat, t: Tree)
    requires Holds(src, pg, t) && src[pg].BranchP?
    ensures t.BranchT? && t.kids != [] && |src[pg].refs| == |t.kids| && Holds(src, src[pg].refs[0], t.kids[0])
    ensures Frame(src, out, src[pg], 0, t, 0) && Count(t) == Left(0, t) + Count(t.kids[0])
  {
  }

  /** From page pg down its first children to a leaf; branch pages are copied to be rewritten. */
  method Descend(src: seq<Page>, ghost out: seq<Page>, pgs0: seq<Page>, kis0: seq<nat>, ghost ts0: seq<Tree>, pg0: nat,
                 ghost t0: Tree)
    returns (pgs: seq<Page>, kis: seq<nat>, ghost ts: seq<Tree>)
    requires Waiting(src, out, pgs0, kis0, ts0, |ts0|) && Holds(src, pg0, t0) && Linked(kis0, ts0, t0)
    ensures ts != [] && ts[0] == if ts0 == [] then t0 else ts0[0]
    ensures Waiting(src, out, pgs, kis, ts, |ts| - 1) && OnTop(src, out, pgs[|ts| - 1], kis[|ts| - 1], ts[|ts| - 1])
    ensures ts[|ts| - 1].LeafT? && StackLeft(kis, ts) == StackLeft(kis0, ts0) + Count(t0)
  {
    hide Frame, Holds, Count, Left, StackLeft;
    pgs, kis, ts := pgs0, kis0, ts0;
    var pg: nat := pg0;
    ghost var t := t0;
    OnFile(src, pg, t);
    while src[pg].BranchP?
      invariant Waiting(src, out, pgs, kis, ts, |ts|) && Linked(kis, ts, t) && pg < |src| && Holds(src, pg, t)
      invariant if ts == [] then ts0 == [] && t == t0 else ts[0] == if ts0 == [] then t0 else ts0[0]
      invariant StackLeft(kis, ts) + Count(t) == StackLeft(kis0, ts0) + Count(t0)
      decreases Count(t)
    {
      BranchRead(src, out, pg, t);
      StackPush(kis, ts, 0, t);
      WaitingPush(src, out, pgs, kis, ts, src[pg], 0, t);
      LeftPositive(0, t);
      hide Waiting;
      pgs, kis, ts := pgs + [src[pg]], kis + [0], ts + [t];
      pg := src[pg].refs[0];
      t := t.kids[0];
      OnFile(src, pg, t);
    }
    LeafRead(src, pg, t);
    StackPush(kis, ts, 0, t);
    WaitingPush(src, out, pgs, kis, ts, src[pg], 0, t);
    pgs, kis, ts := pgs + [src[pg]], kis + [0], ts + [t];
  }

  lemma OnFile(f: seq<Page>, pg: nat, t: Tree)
    requires Holds(f, pg, t)
    ensures pg < |f| && PageHolds(f, f[pg], t)
  {
  }

  lemma LeafRead(f: seq<Page>, pg: nat, t: Tree)
    requires Holds(f, pg, t) && !f[pg].BranchP?
    ensures t.LeafT? && PageHolds(f, f[pg], t) && Left(0, t) == Count(t)
  {
  }

  lemma LeftPositive(k: nat, t: Tree)
    ensures Left(k, t) > 0
  {
  }

  /** The whole stack, from the root of t; empty when the root has been written. */
  ghost predicate Stacked(src: seq<Page>, out: seq<Page>, pgs: seq<Page>, kis: seq<nat>, ts: seq<Tree>, t: Tree) {
    var top := |ts| - 1;
    && |pgs| == |kis| == |ts|
    && (ts != [] ==> ts[0] == t && Waiting(src, out, pgs, kis, ts, top) && OnTop(src, out, pgs[top], kis[top], ts[top]))
  }

  lemma StackNone()
    ensures StackLeft([], []) == 0
  {
  }

  /** Child k of the top page has been written: turn to child k + 1. */
  lemma TurnToNext(src: seq<Page>, out: seq<Page>, pgs: seq<Page>, kis: seq<nat>, ts: seq<Tree>, t: Tree)
    requires ts != [] && Stacked(src, out, pgs, kis, ts, t)
    requires var top := |ts| - 1; pgs[top].BranchP? && kis[top] + 1 < |pgs[top].refs|
    ensures var top := |ts| - 1;
            var k := kis[top] + 1;
            && ts[top].BranchT? && k < |ts[top].kids| == |pgs[top].refs|
            && Waiting(src, out, pgs, kis[top := k], ts, |ts|)
            && Holds(src, pgs[top].refs[k], ts[top].kids[k])
            && StackLeft(kis, ts) == StackLeft(kis[top := k], ts) + Count(ts[top].kids[k])
  {
    var top := |ts| - 1;
    var k := kis[top] + 1;
    NextKid(kis[top], ts[top]);
    var kis' := kis[top := k];
    assert kis'[..top] == kis[..top];
    hide Holds, Count, Left, StackLeft;
    StackTop(kis, ts);
    StackTop(kis', ts);
  }

  lemma StackTop(kis: seq<nat>, ts: seq<Tree>)
    requires |kis| == |ts| > 0
    ensures StackLeft(kis, ts) == StackLeft(kis[..|ts| - 1], ts[..|ts| - 1]) + Left(kis[|ts| - 1], ts[|ts| - 1])
  {
  }

  method NextChild(src: seq<Page>, ghost out: seq<Page>, pgs0: seq<Page>, kis0: seq<nat>, ghost ts0: seq<Tree>,
                   ghost t: Tree)
    returns (pgs: seq<Page>, kis: seq<nat>, ghost ts: seq<Tree>)
    requires ts0 != [] && Stacked(src, out, pgs0, kis0, ts0, t)
    requires var top := |ts0| - 1; pgs0[top].BranchP? && kis0[top] + 1 < |pgs0[top].refs|
    ensures pgs != [] && Stacked(src, out, pgs, kis, ts, t) && StackLeft(kis, ts) == StackLeft(kis0, ts0)
    ensures !pgs[|pgs| - 1].BranchP?
  {
    hide Frame, Holds, Count, Left, StackLeft;
    var top := |pgs0| - 1;
    var k := kis0[top] + 1;
    TurnToNext(src, out, pgs0, kis0, ts0, t);
    kis := kis0[top := k];
    pgs, kis, ts := Descend(src, out, pgs0, kis, ts0, pgs0[top].refs[k], ts0[top].kids[k]);
  }

  /** A page whose children are all written, appended to the file. */
  lemma Appended(out: seq<Page>, mp: Page, t: Tree)
    requires PageHolds(out, mp, t)
    ensures Holds(out + [mp], |out|, t)
  {
    var out' := out + [mp];
    match t {
      case LeafT(vals) =>
        forall i | 0 <= i < |vals|
          ensures NodeHolds(out', mp.nodes[i], vals[i]) { NodeHoldsMore(out, out', mp.nodes[i], vals[i]); }
      case BranchT(_, kids) =>
        forall i | 0 <= i < |kids|
          ensures Holds(out', mp.refs[i], kids[i]) { HoldsMore(out, out', mp.refs[i], kids[i]); }
    }
  }

  /** The last child is written. */
  lemma BranchComplete(src: seq<Page>, out: seq<Page>, p: Page, k: nat, t: Tree)
    requires p.BranchP? && OnTop(src, out, p, k, t) && k + 1 >= |p.refs|
    ensures PageHolds(out, p, t) && Left(k, t) == 1
  {
    assert t.kids[k + 1..] == [];
  }

  /** The parent's node gets the new number of its child k. */
  lemma ParentUpdated(src: seq<Page>, out: seq<Page>, p: Page, k: nat, t: Tree, root: nat)
    requires Frame(src, out, p, k, t, 0) && Holds(out, root, t.kids[k])
    ensures Frame(src, out, BranchP(p.keys, p.refs[k := root]), k, t, 1)
  {
    hide Holds;
  }

  /** The stack without its top page, whose number the parent has. */
  lemma Popped(src: seq<Page>, out: seq<Page>, pgs: seq<Page>, kis: seq<nat>, ts: seq<Tree>, t: Tree, root: nat)
    requires |pgs| == |kis| == |ts| > 1 && ts[0] == t && Waiting(src, out, pgs, kis, ts, |ts| - 1)
    requires Holds(out, root, ts[|ts| - 1])
    ensures var top := |ts| - 1;
            && pgs[top - 1].BranchP? && kis[top - 1] < |pgs[top - 1].refs|
            && Stacked(src, out, pgs[..top][top - 1 := BranchP(pgs[top - 1].keys,
                 pgs[top - 1].refs[kis[top - 1] := root])], kis[..top], ts[..top], t)
  {
    var top := |ts| - 1;
    assert Frame(src, out, pgs[top - 1], kis[top - 1], ts[top - 1], 0);
    ParentUpdated(src, out, pgs[top - 1], kis[top - 1], ts[top - 1], root);
    hide Holds;
  }

  method WritePage(src: seq<Page>, out0: seq<Page>, pgs0: seq<Page>, kis0: seq<nat>, ghost ts0: seq<Tree>,
                   ghost t: Tree)
    returns (out: seq<Page>, pgs: seq<Page>, kis: seq<nat>, ghost ts: seq<Tree>, root: nat)
    requires ts0 != [] && Stacked(src, out0, pgs0, kis0, ts0, t) && StackLeft(kis0, ts0) <= Count(t)
    requires var top := |ts0| - 1; pgs0[top].BranchP? ==> kis0[top] + 1 >= |pgs0[top].refs|
    ensures out0 <= out && Stacked(src, out, pgs, kis, ts, t)
    ensures |out| + StackLeft(kis, ts) == |out0| + StackLeft(kis0, ts0) && StackLeft(kis, ts) < StackLeft(kis0, ts0)
    ensures pgs == [] ==> root == |out| - 1 && Holds(out, root, t)
    decreases Count(t), 2
  {
    hide Frame, Holds, PageHolds, Count, Left, StackLeft;
    var top := |pgs0| - 1;
    var mp := pgs0[top];
    StackTop(kis0, ts0);
    out := out0;
    if mp.LeafP? {
      LeafOnTop(src, out, mp, kis0[top], ts0[top]);
      out, mp := WalkLeaf(src, out, mp, ts0[top]);
    } else {
      BranchOnTop(src, out, mp, kis0[top], ts0[top]);
      BranchComplete(src, out, mp, kis0[top], ts0[top]);
    }
    root := |out|;
    Appended(out, mp, ts0[top]);
    out := out + [mp];
    WaitingMore(src, out0, out, pgs0, kis0, ts0, top);
    pgs, kis, ts := pgs0[..top], kis0[..top], ts0[..top];
    if top > 0 {
      Popped(src, out, pgs0, kis0, ts0, t, root);
      var parent := pgs[top - 1];
      pgs := pgs[top - 1 := BranchP(parent.keys, parent.refs[kis[top - 1] := root])];
    }
  }

  lemma LeafOnTop(src: seq<Page>, out: seq<Page>, p: Page, k: nat, t: Tree)
    requires p.LeafP? && OnTop(src, out, p, k, t)
    ensures t.LeafT? && PageHolds(src, p, t) && Left(k, t) == Count(t) == CountVals(t.vals) + 1
  {
  }

  lemma BranchOnTop(src: seq<Page>, out: seq<Page>, p: Page, k: nat, t: Tree)
    requires !p.LeafP? && OnTop(src, out, p, k, t)
    ensures p.BranchP? && t.BranchT?
  {
  }

  /** mdb_env_cwalk: pages are appended in post-order, so a page's number is its place in the file; the root comes
      last. */
  method Walk(src: seq<Page>, out0: seq<Page>, pg: nat, ghost t: Tree) returns (out: seq<Page>, root: nat)
    requires Holds(src, pg, t)
    ensures out0 <= out && |out| == |out0| + Count(t)
    ensures Holds(out, root, t) && root == |out| - 1
    decreases Count(t), 3
  {
    hide Frame, Holds, PageHolds, Count, Left, StackLeft;
    out := out0;
    ghost var ts: seq<Tree> := [];
    var pgs: seq<Page>, kis: seq<nat> := [], [];
    StackNone();
    pgs, kis, ts := Descend(src, out, pgs, kis, ts, pg, t);
    root := 0;
    while pgs != []
      invariant Stacked(src, out, pgs, kis, ts, t) && out0 <= out
      invariant |out| + StackLeft(kis, ts) == |out0| + Count(t)
      invariant pgs == [] ==> root == |out| - 1 && Holds(out, root, t)
      decreases StackLeft(kis, ts), if pgs != [] && pgs[|pgs| - 1].BranchP? then 1 else 0
    {
      var top := |pgs| - 1;
      var k := kis[top] + 1;
      if pgs[top].BranchP? && k < |pgs[top].refs| {
        pgs, kis, ts := NextChild(src, out, pgs, kis, ts, t);
      } else {
        out, pgs, kis, ts, root := WritePage(src, out, pgs, kis, ts, t);
      }
    }
    StackNone();
  }

  /** The root number that mdb_env_copyfd1 writes into the new meta page: free pages are subtracted from all pages. */
  function PredictedRoot(nextPgno: nat, free: nat): int {
    nextPgno - free - 1
  }

  function CountRoot(r: Root): nat {
    match r
    case Empty => 0
    case Full(t) => Count(t)
  }

  ghost predicate RootHolds(f: seq<Page>, r: Ref, t: Root) {
    match t
    case Empty => r == Invalid
    case Full(tree) => r.Pg? && Holds(f, r.pg, tree)
  }

  // ---------------------------------------------------------------- the committed trees

  /** The pages of a committed tree are those of t: a leaf's overflow pages and nested roots in node order. */
  ghost predicate Shaped(p: P.Tree, t: Tree)
    decreases t, 1
  {
    p.span == 1 &&
    match t
    case LeafT(vals) => p.leaf && ShapedVals(p.kids, vals)
    case BranchT(_, kids) => !p.leaf && ShapedKids(p.kids, kids)
  }

  ghost predicate ShapedVals(ps: seq<P.Tree>, vals: seq<Val>)
    decreases vals, 0
  {
    if vals == [] then ps == []
    else
      match vals[0]
      case Plain(_, _) => ShapedVals(ps, vals[1..])
      case Over(_, extra, _) => ps != [] && ps[0].kids == [] && ps[0].span == 1 + extra &&
        ShapedVals(ps[1..], vals[1..])
      case SubDb(_, _, root) =>
        match root
        case Empty => ShapedVals(ps, vals[1..])
        case Full(t) => ps != [] && ShapedSub(ps[0], vals[0]) && ShapedVals(ps[1..], vals[1..])
  }

  ghost predicate ShapedSub(p: P.Tree, v: Val)
    decreases v, 0
  {
    match v
    case SubDb(_, _, root) => (match root case Empty => false case Full(t) => Shaped(p, t))
    case _ => false
  }

  ghost predicate ShapedKids(ps: seq<P.Tree>, kids: seq<Tree>)
    decreases kids, 0
  {
    |ps| == |kids| && (kids != [] ==> Shaped(ps[0], kids[0]) && ShapedKids(ps[1..], kids[1..]))
  }

  /** Both ways of counting pages agree. */
  lemma {:induction false} ShapedCount(p: P.Tree, t: Tree)
    requires Shaped(p, t)
    ensures P.CountPages([p]) == Count(t)
    decreases t, 1
  {
    assert P.CountPages([p]) == p.span + P.CountPages(p.kids) + P.CountPages([]);
    match t {
      case LeafT(vals) => ShapedCountVals(p.kids, vals);
      case BranchT(_, kids) => ShapedCountKids(p.kids, kids);
    }
  }

  lemma CountCons(ps: seq<P.Tree>)
    requires ps != []
    ensures P.CountPages(ps) == P.CountPages([ps[0]]) + P.CountPages(ps[1..])
  {
    assert P.CountPages([ps[0]]) == ps[0].span + P.CountPages(ps[0].kids) + P.CountPages([]);
  }

  lemma {:induction false} ShapedCountSub(p: P.Tree, v: Val)
    requires ShapedSub(p, v)
    ensures P.CountPages([p]) == CountVal(v)
    decreases v, 0
  {
    match v {
      case SubDb(_, _, root) => match root { case Empty => case Full(t) => ShapedCount(p, t); }
      case _ =>
    }
  }

  lemma {:induction false} ShapedCountVals(ps: seq<P.Tree>, vals: seq<Val>)
    requires ShapedVals(ps, vals)
    ensures P.CountPages(ps) == CountVals(vals)
    decreases vals, 0
  {
    if vals != [] {
      match vals[0] {
        case Plain(_, _) => ShapedCountVals(ps, vals[1..]);
        case Over(_, _, _) => ShapedCountVals(ps[1..], vals[1..]);
        case SubDb(_, _, root) =>
          match root {
            case Empty => ShapedCountVals(ps, vals[1..]);
            case Full(t) =>
              CountCons(ps);
              ShapedCountSub(ps[0], vals[0]);
              ShapedCountVals(ps[1..], vals[1..]);
          }
      }
    }
  }

  lemma {:induction false} ShapedCountKids(ps: seq<P.Tree>, kids: seq<Tree>)
    requires ShapedKids(ps, kids)
    ensures P.CountPages(ps) == CountKids(kids)
    decreases kids, 0
  {
    if kids != [] {
      CountCons(ps);
      ShapedCount(ps[0], kids[0]);
      ShapedCountKids(ps[1..], kids[1..]);
    }
  }

  ghost predicate ShapedRoot(ps: seq<P.Tree>, r: Root) {
    match r
    case Empty => ps == []
    case Full(t) => |ps| == 1 && Shaped(ps[0], t)
  }

  /** What mdb_env_copyfd1 counts as free: the pages listed in the freeDB and the freeDB's own. */
  ghost function FreeAt(s: M.State): nat
    requires s.latest in s.snaps
  {
    R.FreeCount(M.LatestRecords(s)) + P.CountPages(s.snaps[s.latest].free)
  }

  /** In every state of every run the pages below the first unused one are the two meta pages, those counted as free and
      those of the main database. */
  lemma CommitAddsUp(run: seq<M.State>, i: nat, t: Root)
    requires R.IsRun(run) && i < |run|
    ensures run[i].latest in run[i].snaps
    ensures var n := run[i].snaps[run[i].latest]; ShapedRoot(n.main, t) ==> n.next == 2 + FreeAt(run[i]) + CountRoot(t)
  {
    hide R.IsRun, R.FreeCount, M.LatestRecords;
    R.AuditEquation(run, i);
    var ps := run[i].snaps[run[i].latest].main;
    if t.Full? && |ps| == 1 && Shaped(ps[0], t.t) {
      ShapedCount(ps[0], t.t);
      assert ps == [ps[0]];
    }
  }

  /** The copy of the last commit's main database behind two meta pages, in any state of any run: the root number
      predicted from the free pages is the root's exactly when the database is not empty. */
  method CopyMain(src: seq<Page>, root: Ref, nextPgno: nat, free: nat, ghost t: Root, ghost run: seq<M.State>,
                  ghost i: nat)
    returns (out: seq<Page>, root': Ref)
    requires RootHolds(src, root, t)
    requires R.IsRun(run) && i < |run| && run[i].latest in run[i].snaps
    requires ShapedRoot(run[i].snaps[run[i].latest].main, t) && nextPgno == run[i].snaps[run[i].latest].next
    requires free == FreeAt(run[i])
    ensures RootHolds(out, root', t) && |out| == 2 + CountRoot(t)
    ensures t.Full? <==> root'.Pg? && root'.pg == PredictedRoot(nextPgno, free)
  {
    hide R.IsRun, FreeAt, ShapedRoot, Holds;
    CommitAddsUp(run, i, t);
    out := [Meta, Meta];
    match root {
      case Invalid => root' := Invalid;
      case Pg(pg) =>
        var r;
        out, r := Walk(src, out, pg, t.t);
        root' := Pg(r);
    }
  }
}
