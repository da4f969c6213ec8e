/** Slotted pages: a pointer table growing up and nodes packed downward, refined to a sequence of nodes. */
module SlottedPages {
  import opened Seqs

  type byte = x: int | 0 <= x < 256 witness 0

  /** A node as stored: 6 bytes of sizes or page number and flags, the key and, on a leaf, the data. */
  datatype Node = Node(hdr: seq<byte>, key: seq<byte>, data: seq<byte>)

  const NODESIZE: nat := 8
  const PAGEHDRSZ: nat := 16

  /** Stored data bytes by the header: none on a branch page, a page number if F_BIGDATA is set, else mn_lo and mn_hi.
      */
  function DataLen(hdr: seq<byte>, leaf: bool): nat
    requires |hdr| == 6
  {
    if !leaf then 0 else if hdr[4] % 2 == 1 then 8
      else (hdr[0] as int) + 256 * (hdr[1] as int) + 65536 * (hdr[2] as int) + 16777216 * (hdr[3] as int)
  }

  predicate WellFormed(n: Node, leaf: bool) {
    |n.hdr| == 6 && |n.key| < 65536 && |n.data| == DataLen(n.hdr, leaf)
  }

  /** The bytes of a node: the header, mn_ksize, key and data. */
  function Bytes(n: Node): (s: seq<byte>)
    requires |n.key| < 65536
  {
    n.hdr + [|n.key| % 256, |n.key| / 256] + n.key + n.data
  }

  function Size(n: Node): nat {
    Even(NODESIZE + |n.key| + |n.data|)
  }

  function Sizes(nodes: seq<Node>): nat {
    if nodes == [] then 0 else Size(nodes[0]) + Sizes(nodes[1..])
  }

  lemma {:induction false} SizesConcat(a: seq<Node>, b: seq<Node>)
    ensures Sizes(a + b) == Sizes(a) + Sizes(b)
  {
    if a == [] {
      assert a + b == b;
    } else {
      assert (a + b)[1..] == a[1..] + b;
      SizesConcat(a[1..], b);
    }
  }

  lemma SizesAt(nodes: seq<Node>, x: nat, y: nat)
    requires x <= y <= |nodes|
    ensures Sizes(nodes) == Sizes(nodes[..x]) + Sizes(nodes[x..y]) + Sizes(nodes[y..])
  {
    hide Sizes;
    var a, b, c := nodes[..x], nodes[x..y], nodes[y..];
    SizesConcat(a, b);
    SizesConcat(a + b, c);
    assert nodes == a + b + c;
  }

  lemma SizesOne(n: Node)
    ensures Sizes([n]) == Size(n)
  {
    assert [n][1..] == [];
  }

  /** The node n is stored at offset p. */
  ghost predicate NodeAt(mem: seq<byte>, p: nat, n: Node) {
    |n.key| < 65536 && p + |Bytes(n)| <= |mem| && mem[p..p + |Bytes(n)|] == Bytes(n)
  }

  lemma NodeMoved(mem: seq<byte>, p: nat, mem': seq<byte>, p': nat, n: Node)
    requires NodeAt(mem, p, n) && |n.hdr| == 6 && p' + Size(n) <= |mem'| && p + Size(n) <= |mem|
    requires mem'[p'..p' + Size(n)] == mem[p..p + Size(n)]
    ensures NodeAt(mem', p', n)
  {
    var k := |Bytes(n)|;
    forall j | 0 <= j < k ensures mem'[p'..p' + k][j] == Bytes(n)[j] {
      assert mem[p..p + k][j] == Bytes(n)[j];
      assert mem'[p'..p' + Size(n)][j] == mem[p..p + Size(n)][j];
    }
  }

  /** Two nodes do not overlap. */
  predicate Apart(p: nat, n: Node, q: nat, m: Node) {
    p + Size(n) <= q || q + Size(m) <= p
  }

  ghost predicate Placed(mem: seq<byte>, p: nat, n: Node, upper: nat, leaf: bool) {
    WellFormed(n, leaf) && upper <= p && p + Size(n) <= |mem| && NodeAt(mem, p, n)
  }

  /** The page holds the nodes: each at its pointer, none overlapping, nothing between them. */
  ghost predicate Layout(mem: seq<byte>, ptrs: seq<nat>, nodes: seq<Node>, upper: nat, leaf: bool) {
    && |ptrs| == |nodes|
    && (forall i :: 0 <= i < |nodes| ==> Placed(mem, ptrs[i], nodes[i], upper, leaf))
    && (forall i, j :: 0 <= i < j < |nodes| ==> Apart(ptrs[i], nodes[i], ptrs[j], nodes[j]))
    && upper + Sizes(nodes) == |mem|
  }

  lemma SliceOf(a: seq<byte>, b: seq<byte>, from: nat, p: nat, q: nat)
    requires |a| == |b| && from <= p <= q <= |a| && a[from..] == b[from..]
    ensures a[p..q] == b[p..q]
  {
    forall j | 0 <= j < q - p ensures a[p..q][j] == b[p..q][j] {
      assert a[from..][p - from + j] == b[from..][p - from + j];
    }
  }

  // ---------------------------------------------------------------- add

  lemma AddLayout(mem: seq<byte>, mem': seq<byte>, ptrs: seq<nat>, nodes: seq<Node>, upper: nat, leaf: bool, x: nat,
                  n: Node)
    requires Layout(mem, ptrs, nodes, upper, leaf) && x <= |nodes| && WellFormed(n, leaf) && Size(n) <= upper
    requires |mem'| == |mem| && mem'[upper..] == mem[upper..] && NodeAt(mem', upper - Size(n), n)
    ensures var ofs: nat := upper - Size(n);
            Layout(mem', Inserted(ptrs, x, ofs), Inserted(nodes, x, n), ofs, leaf)
  {
    hide NodeAt, WellFormed, Size, Sizes;
    var up: nat := upper - Size(n);
    var ptrs', nodes' := Inserted(ptrs, x, up), Inserted(nodes, x, n);
    forall i | 0 <= i < |nodes| ensures Placed(mem', ptrs[i], nodes[i], up, leaf) {
      SliceOf(mem, mem', upper, ptrs[i], ptrs[i] + Size(nodes[i]));
      SixBytes(nodes[i], leaf);
      NodeMoved(mem, ptrs[i], mem', ptrs[i], nodes[i]);
    }
    InsertedNodes(ptrs, nodes, x, up, n);
    forall i | 0 <= i < |nodes'| ensures Placed(mem', ptrs'[i], nodes'[i], up, leaf) {
      var k := if i < x then i else i - 1;
    }
    forall i, j | 0 <= i < j < |nodes'| ensures Apart(ptrs'[i], nodes'[i], ptrs'[j], nodes'[j]) {
      var a, b := if i < x then i else i - 1, if j < x then j else j - 1;
    }
    SizesAt(nodes, x, x);
    SizesConcat(nodes[..x] + [n], nodes[x..]);
    SizesConcat(nodes[..x], [n]);
    SizesOne(n);
    assert nodes[x..x] == [];
    NoSizes();
  }

  lemma NoSizes()
    ensures Sizes([]) == 0
  {
  }

  lemma SixBytes(n: Node, leaf: bool)
    requires WellFormed(n, leaf)
    ensures |n.hdr| == 6 && |n.key| < 65536
  {
  }

  lemma InsertedNodes(ptrs: seq<nat>, nodes: seq<Node>, x: nat, p: nat, n: Node)
    requires |ptrs| == |nodes| && x <= |nodes|
    ensures var ptrs', nodes' := Inserted(ptrs, x, p), Inserted(nodes, x, n);
            && ptrs'[x] == p && nodes'[x] == n
            && forall i :: 0 <= i < |nodes'| && i != x ==>
                 var k := if i < x then i else i - 1; ptrs'[i] == ptrs[k] && nodes'[i] == nodes[k]
  {
    var ptrs', nodes' := Inserted(ptrs, x, p), Inserted(nodes, x, n);
    forall i | 0 <= i < |nodes'| && i != x
      ensures var k := if i < x then i else i - 1; ptrs'[i] == ptrs[k] && nodes'[i] == nodes[k] {
      if i > x {
        assert ptrs[x..][i - x - 1] == ptrs[i - 1] && nodes[x..][i - x - 1] == nodes[i - 1];
      }
    }
  }

  // ---------------------------------------------------------------- del

  /** The pointer of a node after the bytes between upper and p moved up by d. */
  function Shifted(q: nat, p: nat, d: int): int {
    if q < p then q + d else q
  }

  ghost predicate Without<T>(s: seq<T>, x: nat, t: seq<T>) {
    x < |s| && t == s[..x] + s[x + 1..]
  }

  function Skip(i: nat, x: nat): (k: nat)
    ensures i <= k <= i + 1 && k != x
  {
    if i < x then i else i + 1
  }

  /** The pointers without the one at x, those below it moved up by z. */
  ghost predicate Dropped(ptrs: seq<nat>, ptrs': seq<nat>, x: nat, z: nat) {
    x < |ptrs| == |ptrs'| + 1 && forall i :: 0 <= i < |ptrs'| ==> ptrs'[i] == Shifted(ptrs[Skip(i, x)], ptrs[x], z)
  }

  /** The bytes from upper to p are now z further up, those from p + z on are as they were. */
  ghost predicate MovedUp(mem: seq<byte>, mem': seq<byte>, upper: nat, p: nat, z: nat) {
    |mem| == |mem'| && upper <= p && p + z <= |mem| && mem'[p + z..] == mem[p + z..] &&
      mem'[upper + z..p + z] == mem[upper..p]
  }

  lemma DelPlaced(mem: seq<byte>, mem': seq<byte>, q: nat, m: Node, p: nat, n: Node, upper: nat, leaf: bool)
    requires Placed(mem, q, m, upper, leaf) && Placed(mem, p, n, upper, leaf) && Apart(q, m, p, n)
    requires |mem'| == |mem| && mem'[p + Size(n)..] == mem[p + Size(n)..]
    requires mem'[upper + Size(n)..p + Size(n)] == mem[upper..p]
    ensures Placed(mem', Shifted(q, p, Size(n)), m, upper + Size(n), leaf)
  {
    var z := Size(n);
    hide NodeAt, WellFormed, Size;
    SixBytes(m, leaf);
    PositiveSize(m);
    PositiveSize(n);
    if q < p {
      MovedSlice(mem, mem', upper, p, z, q, q + Size(m));
      NodeMoved(mem, q, mem', q + z, m);
    } else {
      SliceOf(mem, mem', p + z, q, q + Size(m));
      NodeMoved(mem, q, mem', q, m);
    }
  }

  lemma PositiveSize(n: Node)
    ensures Size(n) >= NODESIZE
  {
  }

  /** A slice inside [from, to) of a, which in b is moved by d. */
  lemma MovedSlice(a: seq<byte>, b: seq<byte>, from: nat, to: nat, d: int, p: nat, q: nat)
    requires from <= p <= q <= to <= |a| && 0 <= from + d && to + d <= |b|
    requires b[from + d..to + d] == a[from..to]
    ensures b[p + d..q + d] == a[p..q]
  {
    forall j | 0 <= j < q - p ensures b[p + d..q + d][j] == a[p..q][j] {
      assert b[from + d..to + d][p - from + j] == a[from..to][p - from + j];
    }
  }

  lemma DelApart(q: nat, m: Node, r: nat, o: Node, p: nat, n: Node)
    requires Apart(q, m, r, o) && Apart(q, m, p, n) && Apart(r, o, p, n)
    ensures Shifted(q, p, Size(n)) >= 0 && Shifted(r, p, Size(n)) >= 0
    ensures Apart(Shifted(q, p, Size(n)), m, Shifted(r, p, Size(n)), o)
  {
    PositiveSize(m);
    PositiveSize(n);
    PositiveSize(o);
    hide Size;
  }

  /** Removing node x and moving the bytes below it up gives the page without that node. */
  lemma DelLayout(mem: seq<byte>, mem': seq<byte>, ptrs: seq<nat>, ptrs': seq<nat>, nodes: seq<Node>,
                  nodes': seq<Node>, upper: nat, leaf: bool, x: nat)
    requires Layout(mem, ptrs, nodes, upper, leaf) && Without(nodes, x, nodes') && |mem'| == |mem|
    requires |ptrs'| == |nodes| - 1
    requires Dropped(ptrs, ptrs', x, Size(nodes[x])) && MovedUp(mem, mem', upper, ptrs[x], Size(nodes[x]))
    ensures Layout(mem', ptrs', nodes', upper + Size(nodes[x]), leaf)
  {
    hide Placed, Apart, Size, Sizes;
    var n, p := nodes[x], ptrs[x];
    forall i | 0 <= i < |nodes'| ensures Placed(mem', ptrs'[i], nodes'[i], upper + Size(n), leaf) {
      var k := Skip(i, x);
      assert nodes'[i] == nodes[k];
      ApartSym(ptrs, nodes, k, x);
      DelPlaced(mem, mem', ptrs[k], nodes[k], p, n, upper, leaf);
    }
    forall i, j | 0 <= i < j < |nodes'| ensures Apart(ptrs'[i], nodes'[i], ptrs'[j], nodes'[j]) {
      var a, b := Skip(i, x), Skip(j, x);
      assert nodes'[i] == nodes[a] && nodes'[j] == nodes[b];
      ApartSym(ptrs, nodes, a, x);
      ApartSym(ptrs, nodes, b, x);
      DelApart(ptrs[a], nodes[a], ptrs[b], nodes[b], p, n);
    }
    SizesAt(nodes, x, x + 1);
    SizesConcat(nodes[..x], nodes[x + 1..]);
    assert nodes[x..x + 1] == [n];
    SizesOne(n);
  }

  lemma ApartSym(ptrs: seq<nat>, nodes: seq<Node>, i: nat, j: nat)
    requires |ptrs| == |nodes| && i < |nodes| && j < |nodes| && i != j
    requires forall i, j :: 0 <= i < j < |nodes| ==> Apart(ptrs[i], nodes[i], ptrs[j], nodes[j])
    ensures Apart(ptrs[i], nodes[i], ptrs[j], nodes[j])
  {
    if j < i { assert Apart(ptrs[j], nodes[j], ptrs[i], nodes[i]); }
  }

  // ---------------------------------------------------------------- replace a key

  lemma KeyPlaced(mem: seq<byte>, mem': seq<byte>, q: nat, m: Node, p: nat, n: Node, d: int, upper: nat, leaf: bool)
    requires Placed(mem, q, m, upper, leaf) && Placed(mem, p, n, upper, leaf) && Apart(q, m, p, n)
    requires |mem'| == |mem| && mem'[p + Size(n)..] == mem[p + Size(n)..] && upper - d >= 0 && -d < Size(n)
    requires mem'[upper - d..p - d] == mem[upper..p]
    ensures Shifted(q, p, -d) >= 0 && upper - d <= Shifted(q, p, -d)
    ensures Placed(mem', Shifted(q, p, -d), m, upper - d, leaf)
  {
    hide NodeAt, WellFormed, Size;
    SixBytes(m, leaf);
    PositiveSize(m);
    PositiveSize(n);
    if q < p {
      MovedSlice(mem, mem', upper, p, -d, q, q + Size(m));
      NodeMoved(mem, q, mem', q - d, m);
    } else {
      SliceOf(mem, mem', p + Size(n), q, q + Size(m));
      NodeMoved(mem, q, mem', q, m);
    }
  }

  lemma KeyApart(q: nat, m: Node, r: nat, o: Node, p: nat, n: Node, d: int)
    requires Apart(q, m, r, o) && Apart(q, m, p, n) && Apart(r, o, p, n) && q >= d && r >= d && -d < Size(n)
    ensures Shifted(q, p, -d) >= 0 && Shifted(r, p, -d) >= 0
    ensures Apart(Shifted(q, p, -d), m, Shifted(r, p, -d), o)
  {
    PositiveSize(m);
    PositiveSize(n);
    PositiveSize(o);
    hide Size;
  }

  lemma KeyApartOwn(q: nat, m: Node, p: nat, n: Node, n': Node)
    requires Apart(q, m, p, n) && q >= Size(n') - Size(n) && p >= Size(n') - Size(n)
    ensures var d := Size(n') - Size(n);
            Shifted(q, p, -d) >= 0 && Apart(Shifted(q, p, -d), m, p - d, n') && Apart(p - d, n', Shifted(q, p, -d), m)
  {
    PositiveSize(m);
    PositiveSize(n);
    hide Size;
  }

  /** The pointers up to p are lowered by d. */
  ghost predicate Lowered(ptrs: seq<nat>, ptrs': seq<nat>, p: nat, d: int) {
    |ptrs'| == |ptrs| && forall i :: 0 <= i < |ptrs| ==> ptrs'[i] == if ptrs[i] <= p then ptrs[i] - d else ptrs[i]
  }

  /** The bytes from upper to p are now d further down, those behind the node at p as they were. */
  ghost predicate MovedDown(mem: seq<byte>, mem': seq<byte>, upper: nat, p: nat, d: int, size: nat) {
    && |mem| == |mem'| && upper <= p && p + size <= |mem| && 0 <= upper - d && p - d <= |mem|
    && mem'[p + size..] == mem[p + size..] && mem'[upper - d..p - d] == mem[upper..p]
  }

  /** Node x becomes n', which needs d bytes more; the bytes below its key and up to it moved down by d. */
  lemma KeyLayout(mem: seq<byte>, mem': seq<byte>, ptrs: seq<nat>, ptrs': seq<nat>, nodes: seq<Node>, upper: nat,
                  leaf: bool, x: nat, n': Node)
    requires Layout(mem, ptrs, nodes, upper, leaf) && x < |nodes| && WellFormed(n', leaf) && |mem'| == |mem|
    requires |ptrs'| == |ptrs|
    requires upper >= Size(n') - Size(nodes[x])
    requires var p, d := ptrs[x], Size(n') - Size(nodes[x]);
             && Lowered(ptrs, ptrs', p, d) && MovedDown(mem, mem', upper, p, d, Size(nodes[x]))
             && NodeAt(mem', p - d, n')
    ensures Layout(mem', ptrs', nodes[x := n'], upper - (Size(n') - Size(nodes[x])), leaf)
  {
    hide NodeAt, WellFormed, Apart, Size, Sizes, Placed, MovedDown;
    KeySizes(nodes, x, n');
    KeyAllPlaced(mem, mem', ptrs, ptrs', nodes, upper, leaf, x, n');
    KeyPairs(ptrs, ptrs', nodes, x, n', upper);
  }

  lemma KeyAllPlaced(mem: seq<byte>, mem': seq<byte>, ptrs: seq<nat>, ptrs': seq<nat>, nodes: seq<Node>, upper: nat,
                     leaf: bool, x: nat, n': Node)
    requires Layout(mem, ptrs, nodes, upper, leaf) && x < |nodes| && WellFormed(n', leaf) && |mem'| == |mem|
    requires |ptrs'| == |ptrs|
    requires upper >= Size(n') - Size(nodes[x])
    requires var p, d := ptrs[x], Size(n') - Size(nodes[x]);
             && Lowered(ptrs, ptrs', p, d) && MovedDown(mem, mem', upper, p, d, Size(nodes[x]))
             && NodeAt(mem', p - d, n')
    ensures forall i :: 0 <= i < |nodes| ==>
      Placed(mem', ptrs'[i], nodes[x := n'][i], upper - (Size(n') - Size(nodes[x])), leaf) && ptrs[i] >= upper &&
        (i != x ==> ptrs[i] != ptrs[x])
  {
    hide NodeAt, WellFormed, Apart, Size, Sizes, Placed;
    KeyOwn(mem, mem', ptrs, nodes, upper, leaf, x, n');
    forall i | 0 <= i < |nodes|
      ensures Placed(mem', ptrs'[i], nodes[x := n'][i], upper - (Size(n') - Size(nodes[x])), leaf) && ptrs[i] >= upper
      ensures (i != x ==> ptrs[i] != ptrs[x])
    {
      if i != x { KeyOther(mem, mem', ptrs, nodes, upper, leaf, x, n', i); }
    }
  }

  lemma KeyPairs(ptrs: seq<nat>, ptrs': seq<nat>, nodes: seq<Node>, x: nat, n': Node, upper: nat)
    requires |ptrs| == |ptrs'| == |nodes| && x < |nodes| && upper >= Size(n') - Size(nodes[x])
    requires forall i, j :: 0 <= i < j < |nodes| ==> Apart(ptrs[i], nodes[i], ptrs[j], nodes[j])
    requires forall i :: 0 <= i < |nodes| ==> ptrs[i] >= upper && (i != x ==> ptrs[i] != ptrs[x])
    requires Lowered(ptrs, ptrs', ptrs[x], Size(n') - Size(nodes[x]))
    ensures forall i, j :: 0 <= i < j < |nodes| ==> Apart(ptrs'[i], nodes[x := n'][i], ptrs'[j], nodes[x := n'][j])
  {
    hide Apart, Size;
    forall i, j | 0 <= i < j < |nodes| ensures Apart(ptrs'[i], nodes[x := n'][i], ptrs'[j], nodes[x := n'][j]) {
      KeyPair(ptrs, ptrs', nodes, x, n', i, j, upper);
    }
  }

  lemma KeyOwn(mem: seq<byte>, mem': seq<byte>, ptrs: seq<nat>, nodes: seq<Node>, upper: nat, leaf: bool, x: nat,
               n': Node)
    requires Layout(mem, ptrs, nodes, upper, leaf) && x < |nodes| && WellFormed(n', leaf) && |mem'| == |mem|
    requires var d := Size(n') - Size(nodes[x]); upper - d >= 0 && ptrs[x] - d >= 0 && NodeAt(mem', ptrs[x] - d, n')
    ensures var d := Size(n') - Size(nodes[x]); upper <= ptrs[x] && Placed(mem', ptrs[x] - d, n', upper - d, leaf)
  {
    hide NodeAt, WellFormed, Apart, Size, Sizes;
    assert Placed(mem, ptrs[x], nodes[x], upper, leaf);
  }

  lemma KeyOther(mem: seq<byte>, mem': seq<byte>, ptrs: seq<nat>, nodes: seq<Node>, upper: nat, leaf: bool, x: nat,
                 n': Node, i: nat)
    requires Layout(mem, ptrs, nodes, upper, leaf) && x < |nodes| && |mem'| == |mem| && i < |nodes| && i != x
    requires var p, d := ptrs[x], Size(n') - Size(nodes[x]);
             MovedDown(mem, mem', upper, p, d, Size(nodes[x]))
    ensures var p, d := ptrs[x], Size(n') - Size(nodes[x]);
            && ptrs[i] != p && ptrs[i] >= upper && Shifted(ptrs[i], p, -d) >= 0
            && Placed(mem', Shifted(ptrs[i], p, -d), nodes[i], upper - d, leaf)
  {
    hide NodeAt, WellFormed, Apart, Size, Sizes;
    PositiveSize(n');
    PositiveSize(nodes[x]);
    ApartSym(ptrs, nodes, i, x);
    Distinct(ptrs[i], nodes[i], ptrs[x], nodes[x]);
    assert Placed(mem, ptrs[i], nodes[i], upper, leaf) && Placed(mem, ptrs[x], nodes[x], upper, leaf);
    KeyPlaced(mem, mem', ptrs[i], nodes[i], ptrs[x], nodes[x], Size(n') - Size(nodes[x]), upper, leaf);
  }

  lemma KeySizes(nodes: seq<Node>, x: nat, n': Node)
    requires x < |nodes|
    ensures Sizes(nodes[x := n']) == Sizes(nodes) + Size(n') - Size(nodes[x])
  {
    hide Size, Sizes;
    var nodes' := nodes[x := n'];
    SizesAt(nodes, x, x + 1);
    SizesAt(nodes', x, x + 1);
    assert nodes[x..x + 1] == [nodes[x]] && nodes'[x..x + 1] == [n'] && nodes'[..x] == nodes[..x] &&
      nodes'[x + 1..] == nodes[x + 1..];
    SizesOne(nodes[x]);
    SizesOne(n');
  }

  lemma KeyPair(ptrs: seq<nat>, ptrs': seq<nat>, nodes: seq<Node>, x: nat, n': Node, i: nat, j: nat, upper: nat)
    requires |ptrs| == |ptrs'| == |nodes| && x < |nodes| && i < j < |nodes| && upper >= Size(n') - Size(nodes[x])
    requires forall i, j :: 0 <= i < j < |nodes| ==> Apart(ptrs[i], nodes[i], ptrs[j], nodes[j])
    requires forall i :: 0 <= i < |nodes| ==> ptrs[i] >= upper && (i != x ==> ptrs[i] != ptrs[x])
    requires var d := Size(n') - Size(nodes[x]);
             forall i :: 0 <= i < |ptrs| ==> ptrs'[i] == if ptrs[i] <= ptrs[x] then ptrs[i] - d else ptrs[i]
    ensures Apart(ptrs'[i], nodes[x := n'][i], ptrs'[j], nodes[x := n'][j])
  {
    hide Apart, Size;
    PositiveSize(n');
    ApartSym(ptrs, nodes, i, j);
    if i == x {
      ApartSym(ptrs, nodes, j, x);
      KeyApartOwn(ptrs[j], nodes[j], ptrs[x], nodes[x], n');
    } else if j == x {
      KeyApartOwn(ptrs[i], nodes[i], ptrs[x], nodes[x], n');
    } else {
      ApartSym(ptrs, nodes, i, x);
      ApartSym(ptrs, nodes, j, x);
      KeyApart(ptrs[i], nodes[i], ptrs[j], nodes[j], ptrs[x], nodes[x], Size(n') - Size(nodes[x]));
    }
  }

  lemma Distinct(q: nat, m: Node, p: nat, n: Node)
    requires Apart(q, m, p, n)
    ensures q != p
  {
  }

  // ---------------------------------------------------------------- the operations

  function U16(x: nat): (s: seq<byte>)
    requires x < 65536
    ensures |s| == 2
  {
    [x % 256, x / 256]
  }

  /** The node that mdb_node_add stores: on a leaf, data that is too large is replaced by an overflow page number. */
  function NewNode(leaf: bool, key: seq<byte>, dsize: nat, data: seq<byte>, pgno: nat, flags: nat, nodemax: nat,
                   ovpg: seq<byte>): (n: Node)
    requires dsize < 0x1_0000_0000 && pgno < 0x1_0000_0000_0000 && flags < 65535
  {
    if !leaf then Node(U16(pgno % 65536) + U16(pgno / 65536 % 65536) + U16(pgno / 0x1_0000_0000), key, [])
    else
      var size := U16(dsize % 65536) + U16(dsize / 65536);
      if flags % 2 == 1 then Node(size + U16(flags), key, data)
      else if NODESIZE + |key| + dsize > nodemax then Node(size + U16(flags + 1), key, ovpg)
      else Node(size + U16(flags), key, data)
  }

  // ---------------------------------------------------------------- what a stored node says

  /** NODEPGNO of a branch node: three little-endian words, the low one first. */
  function NodePgno(hdr: seq<byte>): nat
    requires |hdr| == 6
  {
    hdr[0] + 256 * (hdr[1] as int) + 0x1_0000 * (hdr[2] as int) + 0x100_0000 * (hdr[3] as int) +
      0x1_0000_0000 * (hdr[4] as int) + 0x100_0000_0000 * (hdr[5] as int)
  }

  /** NODEDSZ of a leaf node: mn_lo and mn_hi. */
  function NodeDsz(hdr: seq<byte>): nat
    requires |hdr| == 6
  {
    hdr[0] + 256 * (hdr[1] as int) + 0x1_0000 * (hdr[2] as int) + 0x100_0000 * (hdr[3] as int)
  }

  /** mn_flags of a leaf node. */
  function NodeFlags(hdr: seq<byte>): nat
    requires |hdr| == 6
  {
    hdr[4] + 256 * (hdr[5] as int)
  }

  /** F_BIGDATA is passed, or the node would exceed me_nodemax. */
  predicate Big(key: seq<byte>, dsize: nat, flags: nat, nodemax: nat) {
    flags % 2 == 1 || NODESIZE + |key| + dsize > nodemax
  }

  /** The node read back: on a branch page the key and the child's page number; on a leaf the key, the size of the data,
      the flags with F_BIGDATA for data kept elsewhere, and the data or the overflow page's number. */
  ghost predicate Says(n: Node, leaf: bool, key: seq<byte>, dsize: nat, data: seq<byte>, pgno: nat, flags: nat,
                       nodemax: nat, ovpg: seq<byte>) {
    |n.hdr| == 6 && n.key == key &&
    if !leaf then n.data == [] && NodePgno(n.hdr) == pgno
    else
      && NodeDsz(n.hdr) == dsize
      && NodeFlags(n.hdr) == (if flags % 2 == 0 && Big(key, dsize, flags, nodemax) then flags + 1 else flags)
      && n.data == if flags % 2 == 0 && Big(key, dsize, flags, nodemax) then ovpg else data
  }

  /** Bytes stored besides header and key. */
  function StoredLen(leaf: bool, key: seq<byte>, dsize: nat, flags: nat, nodemax: nat): nat {
    if !leaf then 0 else if Big(key, dsize, flags, nodemax) then 8 else dsize
  }

  lemma WordBytes(x: nat)
    requires x < 65536
    ensures U16(x)[0] + 256 * (U16(x)[1] as int) == x
  {
  }

  lemma ThreeWords(pgno: nat)
    requires pgno < 0x1_0000_0000_0000
    ensures pgno / 0x1_0000_0000 < 65536
    ensures pgno % 65536 + 0x1_0000 * (pgno / 65536 % 65536) + 0x1_0000_0000 * (pgno / 0x1_0000_0000) == pgno
  {
    var q := pgno / 65536;
    assert q / 65536 == pgno / 0x1_0000_0000;
  }

  /** What mdb_node_add stores is read back. */
  lemma NewNodeSays(leaf: bool, key: seq<byte>, dsize: nat, data: seq<byte>, pgno: nat, flags: nat, nodemax: nat,
                    ovpg: seq<byte>)
    requires dsize < 0x1_0000_0000 && pgno < 0x1_0000_0000_0000 && flags < 65535
    requires |ovpg| == 8 && |data| == if leaf && flags % 2 == 1 then 8 else dsize
    ensures var n := NewNode(leaf, key, dsize, data, pgno, flags, nodemax, ovpg);
            && Says(n, leaf, key, dsize, data, pgno, flags, nodemax, ovpg)
            && Size(n) == Even(NODESIZE + |key| + StoredLen(leaf, key, dsize, flags, nodemax))
  {
    var n := NewNode(leaf, key, dsize, data, pgno, flags, nodemax, ovpg);
    hide U16;
    if !leaf {
      ThreeWords(pgno);
      WordBytes(pgno % 65536);
      WordBytes(pgno / 65536 % 65536);
      WordBytes(pgno / 0x1_0000_0000);
    } else {
      WordBytes(dsize % 65536);
      WordBytes(dsize / 65536);
      WordBytes(flags);
      WordBytes(flags + 1);
    }
  }

  lemma InsertedThere(s: seq<Node>, i: nat, n: Node)
    requires i <= |s|
    ensures |Inserted(s, i, n)| == |s| + 1 && Inserted(s, i, n)[i] == n
  {
  }

  /** What is read back leaves no choice of the node. */
  lemma SaysOne(m: Node, n: Node, leaf: bool, key: seq<byte>, dsize: nat, data: seq<byte>, pgno: nat, flags: nat,
                nodemax: nat, ovpg: seq<byte>)
    requires Says(m, leaf, key, dsize, data, pgno, flags, nodemax, ovpg)
    requires Says(n, leaf, key, dsize, data, pgno, flags, nodemax, ovpg)
    ensures m == n
  {
    if leaf {
      assert NodeDsz(m.hdr) + 0x1_0000_0000 * NodeFlags(m.hdr) == NodePgno(m.hdr);
      assert NodeDsz(n.hdr) + 0x1_0000_0000 * NodeFlags(n.hdr) == NodePgno(n.hdr);
    }
    SixOne(m.hdr, n.hdr);
  }

  /** Six bytes are determined by the number they stand for. */
  lemma SixOne(a: seq<byte>, b: seq<byte>)
    requires |a| == 6 && |b| == 6 && NodePgno(a) == NodePgno(b)
    ensures a == b
  {
    FromIsPgno(a);
    FromIsPgno(b);
    FromOne(a, b, 0);
  }

  lemma {:induction false} FromOne(a: seq<byte>, b: seq<byte>, i: nat)
    requires |a| == 6 && |b| == 6 && i <= 6 && From(a, i) == From(b, i)
    ensures a[i..] == b[i..]
    decreases 6 - i
  {
    if i < 6 {
      assert a[i] == b[i] && From(a, i + 1) == From(b, i + 1);
      FromOne(a, b, i + 1);
      assert a[i..] == [a[i]] + a[i + 1..] && b[i..] == [b[i]] + b[i + 1..];
    }
  }

  /** The number from byte i on. */
  function From(s: seq<byte>, i: nat): nat
    requires |s| == 6 && i <= 6
    decreases 6 - i
  {
    if i == 6 then 0 else s[i] + 256 * From(s, i + 1)
  }

  lemma FromIsPgno(s: seq<byte>)
    requires |s| == 6
    ensures From(s, 0) == NodePgno(s)
  {
    var f := From(s, 3);
    assert From(s, 2) == s[2] + 256 * f && From(s, 1) == s[1] + 256 * From(s, 2);
    assert f == s[3] + 256 * From(s, 4) && From(s, 4) == s[4] + 256 * From(s, 5) && From(s, 5) == s[5] + 0;
  }

  lemma NewNodeWellFormed(leaf: bool, key: seq<byte>, dsize: nat, data: seq<byte>, pgno: nat, flags: nat, nodemax: nat,
                          ovpg: seq<byte>)
    requires |key| < 65536 && dsize < 0x1_0000_0000 && pgno < 0x1_0000_0000_0000 && flags < 65535
    requires |ovpg| == 8 && |data| == if leaf && flags % 2 == 1 then 8 else dsize
    ensures WellFormed(NewNode(leaf, key, dsize, data, pgno, flags, nodemax, ovpg), leaf)
  {
    if leaf {
      var f := if flags % 2 == 1 || NODESIZE + |key| + dsize <= nodemax then flags else flags + 1;
      LowBit(f);
      FourBytes(dsize);
      hide Even;
      var n := NewNode(leaf, key, dsize, data, pgno, flags, nodemax, ovpg);
      assert n.hdr[4] == f % 256 && n.hdr[0] == dsize % 65536 % 256;
    }
  }

  lemma LowBit(f: nat)
    ensures f % 256 % 2 == f % 2
  {
  }

  lemma FourBytes(d: nat)
    requires d < 0x1_0000_0000
    ensures d % 65536 % 256 + 256 * (d % 65536 / 256) + 65536 * (d / 65536 % 256) + 16777216 * (d / 65536 / 256) == d
  {
  }

  /** What can be read from the header bytes. */
  lemma HeaderBytes(mem: seq<byte>, p: nat, n: Node)
    requires NodeAt(mem, p, n) && |n.hdr| == 6
    ensures p + NODESIZE <= |mem| && mem[p..p + 6] == n.hdr && mem[p + 6] + 256 * (mem[p + 7] as int) == |n.key|
  {
    var b := Bytes(n);
    forall j | 0 <= j < 6 ensures mem[p + j] == n.hdr[j] { assert mem[p..p + |b|][j] == b[j]; }
    assert mem[p..p + |b|][6] == b[6] && mem[p..p + |b|][7] == b[7];
    assert mem[p..p + 6] == n.hdr;
  }

  /** The bytes with some overwritten. */
  function Spliced(s: seq<byte>, at: nat, bytes: seq<byte>): (r: seq<byte>)
    requires at + |bytes| <= |s|
    ensures |r| == |s|
  {
    s[..at] + bytes + s[at + |bytes|..]
  }

  lemma SplicedAt(s: seq<byte>, at: nat, bytes: seq<byte>)
    requires at + |bytes| <= |s|
    ensures forall j :: 0 <= j < |s| ==>
      Spliced(s, at, bytes)[j] == if at <= j < at + |bytes| then bytes[j - at] else s[j]
  {
  }

  method MemMove(mem: array<byte>, dst: nat, src: nat, len: nat)
    requires dst + len <= mem.Length && src + len <= mem.Length
    modifies mem
    ensures mem[..] == Spliced(old(mem[..]), dst, old(mem[..])[src..src + len])
  {
    ghost var was := mem[..];
    var bytes := mem[src..src + len];
    forall j | 0 <= j < len { mem[dst + j] := bytes[j]; }
    SplicedAt(was, dst, bytes);
    assert mem[..] == Spliced(was, dst, bytes);
  }

  method MemCopy(mem: array<byte>, dst: nat, bytes: seq<byte>)
    requires dst + |bytes| <= mem.Length
    modifies mem
    ensures mem[..] == Spliced(old(mem[..]), dst, bytes)
  {
    ghost var was := mem[..];
    forall j | 0 <= j < |bytes| { mem[dst + j] := bytes[j]; }
    SplicedAt(was, dst, bytes);
    assert mem[..] == Spliced(was, dst, bytes);
  }

  class SlottedPage {
    const leaf: bool
    const mem: array<byte>
    const ptrs: array<nat>
    var lower: nat
    var upper: nat
    ghost var nodes: seq<Node>

    ghost predicate Valid()
      reads this, mem, ptrs
    {
      && PAGEHDRSZ <= mem.Length && PAGEHDRSZ + 2 * ptrs.Length <= mem.Length <= PAGEHDRSZ + 2 * ptrs.Length + 1
      && lower == PAGEHDRSZ + 2 * |nodes| && lower <= upper <= mem.Length && |nodes| <= ptrs.Length
      && Layout(mem[..], ptrs[..|nodes|], nodes, upper, leaf)
    }

    /** Free space, node sizes and pointers always add up to the page. */
    lemma Conservation()
      requires Valid()
      ensures (upper - lower) + Sizes(nodes) + 2 * |nodes| == mem.Length - PAGEHDRSZ
    {
    }

    /** The bytes that node x takes, as the header tells. */
    method NodeSize(x: nat) returns (sz: nat)
      requires Valid() && x < |nodes|
      ensures sz == Size(nodes[x])
    {
      var p := ptrs[x];
      assert Placed(mem[..], ptrs[..|nodes|][x], nodes[x], upper, leaf);
      HeaderBytes(mem[..], p, nodes[x]);
      sz := NODESIZE + mem[p + 6] + 256 * (mem[p + 7] as int);
      var hdr := mem[p..p + 6];
      sz := Even(sz + DataLen(hdr, leaf));
    }

    /** NODEPGNO, from the page's bytes. */
    method PageNumber(x: nat) returns (pgno: nat)
      requires Valid() && !leaf && x < |nodes|
      ensures |nodes[x].hdr| == 6 && pgno == NodePgno(nodes[x].hdr)
    {
      var p := ptrs[x];
      assert Placed(mem[..], ptrs[..|nodes|][x], nodes[x], upper, leaf);
      HeaderBytes(mem[..], p, nodes[x]);
      pgno := NodePgno(mem[p..p + 6]);
    }

    lemma NodePlaced(x: nat)
      requires Valid() && x < |nodes|
      ensures upper <= ptrs[x] && ptrs[x] + Size(nodes[x]) <= mem.Length && |nodes[x].hdr| == 6
      ensures NodeAt(mem[..], ptrs[x], nodes[x]) && WellFormed(nodes[x], leaf)
      ensures forall k :: 0 <= k < |nodes| ==> ptrs[..|nodes|][k] >= upper
    {
      assert Placed(mem[..], ptrs[..|nodes|][x], nodes[x], upper, leaf);
      PtrsAbove(mem[..], ptrs[..|nodes|], nodes, upper, leaf);
    }

    /** mdb_node_add: insert at indx, or leave the page as it is when there is no room. */
    method NodeAdd(indx: nat, key: seq<byte>, dsize: nat, data: seq<byte>, pgno: nat, flags: nat, nodemax: nat,
                   ovpg: seq<byte>) returns (ok: bool)
      requires Valid() && indx <= |nodes|
      requires |key| < 65536 && dsize < 0x1_0000_0000 && pgno < 0x1_0000_0000_0000 && flags < 65535
      requires |ovpg| == 8 && |data| == if leaf && flags % 2 == 1 then 8 else dsize
      modifies this, mem, ptrs
      ensures Valid()
      ensures ok <==> Even(NODESIZE + |key| + StoredLen(leaf, key, dsize, flags, nodemax)) + 2 <= old(upper - lower)
      ensures ok ==> indx < |nodes| && nodes == Inserted(old(nodes), indx, nodes[indx])
      ensures ok ==> Says(nodes[indx], leaf, key, dsize, data, pgno, flags, nodemax, ovpg)
      ensures !ok ==> nodes == old(nodes)
      ensures !ok ==> mem[..] == old(mem[..]) && ptrs[..] == old(ptrs[..]) && lower == old(lower) && upper == old(upper)
    {
      hide NewNode, WellFormed, Says, StoredLen, Size, Even, Inserted, Layout, Sizes, NodeAt;
      var node := NewNode(leaf, key, dsize, data, pgno, flags, nodemax, ovpg);
      NewNodeWellFormed(leaf, key, dsize, data, pgno, flags, nodemax, ovpg);
      NewNodeSays(leaf, key, dsize, data, pgno, flags, nodemax, ovpg);
      var room := upper - lower - 2;
      if Size(node) > room {
        return false;
      }
      InsertedThere(nodes, indx, node);
      AddNode(indx, node);
      ok := true;
    }

    method AddNode(indx: nat, node: Node)
      requires Valid() && indx <= |nodes| && WellFormed(node, leaf) && Size(node) + 2 <= upper - lower
      modifies this, mem, ptrs
      ensures Valid() && nodes == Inserted(old(nodes), indx, node)
    {
      hide WellFormed, Layout, Sizes, NodeAt, Size, Inserted;
      ghost var was, ps, ns := mem[..], ptrs[..|nodes|], nodes;
      var ofs: nat := upper - Size(node);
      InsertPtr(ptrs, (lower - PAGEHDRSZ) / 2, indx, ofs);
      ghost var ps' := ptrs[..|ns| + 1];
      WriteNode(mem, ofs, node, upper, leaf);
      ghost var now := mem[..];
      AddLayout(was, now, ps, ns, upper, leaf, indx, node);
      upper, lower := ofs, lower + 2;
      nodes := Inserted(ns, indx, node);
      assert ptrs[..|nodes|] == ps' && mem[..] == now;
    }

    /** mdb_node_del: the node at indx goes, the bytes below it move up. */
    method NodeDel(indx: nat)
      requires Valid() && indx < |nodes|
      modifies this, mem, ptrs
      ensures Valid() && nodes == old(nodes[..indx] + nodes[indx + 1..])
    {
      hide WellFormed, Layout, Sizes, NodeAt, Size, Dropped, MovedUp, Spliced;
      ghost var was, ps, ns := mem[..], ptrs[..|nodes|], nodes;
      var sz := NodeSize(indx);
      var ptr := ptrs[indx];
      NodePlaced(indx);
      var numkeys := (lower - PAGEHDRSZ) / 2;
      DropPtr(ptrs, numkeys, indx, sz);
      ghost var ps': seq<nat> := ptrs[..numkeys - 1];
      ghost var ns' := ns[..indx] + ns[indx + 1..];
      MemMove(mem, upper + sz, upper, ptr - upper);
      ghost var now := mem[..];
      DelMoved(was, upper, ptr, sz);
      DelLayout(was, now, ps, ps', ns, ns', upper, leaf, indx);
      upper, lower := upper + sz, lower - 2;
      nodes := ns';
      assert ptrs[..|nodes|] == ps' && mem[..] == now;
    }

    /** mdb_update_key on a branch page; without room the page is left to be split. */
    method UpdateKey(indx: nat, key: seq<byte>) returns (ok: bool)
      requires Valid() && !leaf && indx < |nodes| && |key| < 65536
      modifies this, mem, ptrs
      ensures Valid()
      ensures ok <==> old(upper - lower) + Even(|old(nodes)[indx].key|) >= Even(|key|)
      ensures nodes == if ok then old(nodes)[indx := Node(old(nodes)[indx].hdr, key, [])] else old(nodes)
      ensures !ok ==> mem[..] == old(mem[..]) && ptrs[..] == old(ptrs[..]) && lower == old(lower) && upper == old(upper)
    {
      hide WellFormed, Layout, Sizes, NodeAt, Size;
      NodePlaced(indx);
      BranchSize(nodes[indx], Node(nodes[indx].hdr, key, []));
      var sz := NodeSize(indx);
      var delta := Even(|key|) - (sz - NODESIZE);
      if delta > 0 && upper - lower < delta {
        return false;
      }
      ReplaceKey(indx, key, delta);
      ok := true;
    }

    method ReplaceKey(indx: nat, key: seq<byte>, delta: int)
      requires Valid() && !leaf && indx < |nodes| && |key| < 65536 && upper - lower >= delta
      requires var n := Node(nodes[indx].hdr, key, []);
               WellFormed(n, leaf) && delta == Size(n) - Size(nodes[indx])
      modifies this, mem, ptrs
      ensures Valid() && nodes == old(nodes)[indx := Node(old(nodes)[indx].hdr, key, [])]
    {
      hide WellFormed, Layout, Sizes, NodeAt, Size, Lowered, MovedDown;
      ghost var was, ps, ns := mem[..], ptrs[..|nodes|], nodes;
      ghost var n := Node(nodes[indx].hdr, key, []);
      var ptr := ptrs[indx];
      NodePlaced(indx);
      var numkeys := (lower - PAGEHDRSZ) / 2;
      ShiftPtrs(ptrs, numkeys, ptr, upper, delta);
      ghost var ps': seq<nat> := ptrs[..numkeys];
      MoveAndWrite(mem, upper, ptr, delta, key, ns[indx], n);
      ghost var now := mem[..];
      KeyLayout(was, now, ps, ps', ns, upper, leaf, indx, n);
      upper := upper - delta;
      nodes := ns[indx := n];
      assert ptrs[..|nodes|] == ps' && mem[..] == now;
    }
  }

  lemma DelMoved(was: seq<byte>, upper: nat, p: nat, z: nat)
    requires upper <= p && p + z <= |was|
    ensures MovedUp(was, Spliced(was, upper + z, was[upper..upper + (p - upper)]), upper, p, z)
  {
    var now := Spliced(was, upper + z, was[upper..p]);
    SplicedAt(was, upper + z, was[upper..p]);
    hide Spliced;
    assert now[p + z..] == was[p + z..];
    assert now[upper + z..p + z] == was[upper..p];
  }

  /** On a branch page a node is its header and its key. */
  lemma BranchSize(n: Node, n': Node)
    requires WellFormed(n, false) && n'.hdr == n.hdr && n'.data == [] && |n'.key| < 65536
    ensures WellFormed(n', false) && Size(n) == NODESIZE + Even(|n.key|) && Size(n') == NODESIZE + Even(|n'.key|)
  {
  }

  /** Close the pointer table over x; nodes below the deleted one have moved up by sz. */
  method DropPtr(ptrs: array<nat>, n: nat, x: nat, sz: nat)
    requires x < n <= ptrs.Length
    modifies ptrs
    ensures Dropped(old(ptrs[..n]), ptrs[..n - 1], x, sz)
  {
    ghost var was := ptrs[..n];
    var ptr := ptrs[x];
    var i, j := 0, 0;
    hide Shifted, Skip, Dropped;
    while i < n
      invariant i <= n && j == if i <= x then i else i - 1
      invariant forall k :: 0 <= k < j ==> ptrs[k] == Shifted(was[Skip(k, x)], ptr, sz)
      invariant forall k :: i <= k < n ==> ptrs[k] == was[k]
    {
      if i != x {
        ShiftedIs(ptrs[i], ptr, sz);
        SkipIs(j, x);
        assert Skip(j, x) == i;
        ptrs[j] := if ptrs[i] < ptr then ptrs[i] + sz else ptrs[i];
        j := j + 1;
      }
      i := i + 1;
    }
    ghost var now := ptrs[..n - 1];
    assert forall k :: 0 <= k < |now| ==> now[k] == Shifted(was[Skip(k, x)], ptr, sz);
    DroppedIs(was, now, x, sz);
  }

  lemma DroppedIs(ptrs: seq<nat>, ptrs': seq<nat>, x: nat, z: nat)
    requires x < |ptrs| == |ptrs'| + 1
    requires forall i :: 0 <= i < |ptrs'| ==> ptrs'[i] == Shifted(ptrs[Skip(i, x)], ptrs[x], z)
    ensures Dropped(ptrs, ptrs', x, z)
  {
  }

  lemma SkipIs(j: nat, x: nat)
    ensures Skip(j, x) == if j < x then j else j + 1
  {
  }

  lemma ShiftedIs(q: nat, p: nat, d: int)
    ensures Shifted(q, p, d) == if q < p then q + d else q
  {
  }

  lemma PtrsAbove(mem: seq<byte>, ptrs: seq<nat>, nodes: seq<Node>, upper: nat, leaf: bool)
    requires Layout(mem, ptrs, nodes, upper, leaf)
    ensures forall k :: 0 <= k < |ptrs| ==> ptrs[k] >= upper
  {
    hide NodeAt, WellFormed, Size, Sizes, Apart;
    forall k | 0 <= k < |ptrs| ensures ptrs[k] >= upper { assert Placed(mem, ptrs[k], nodes[k], upper, leaf); }
  }

  /** Node contents up to the header move by -delta, then mn_ksize and the key are written. */
  method MoveAndWrite(mem: array<byte>, upper: nat, ptr: nat, delta: int, key: seq<byte>, ghost o: Node, ghost n: Node)
    requires upper <= ptr && ptr + Size(o) <= mem.Length && 0 <= upper - delta && NodeAt(mem[..], ptr, o)
    requires |o.hdr| == 6
    requires n == Node(o.hdr, key, []) && |key| < 65536 && Size(n) == Size(o) + delta
    modifies mem
    ensures MovedDown(old(mem[..]), mem[..], upper, ptr, delta, Size(o)) && NodeAt(mem[..], ptr - delta, n)
  {
    hide NodeAt, Size, Spliced, MovedDown, U16;
    ghost var was := mem[..];
    HeaderBytes(was, ptr, o);
    PositiveSize(n);
    PositiveSize(o);
    KeyFits(n);
    if delta != 0 {
      MemMove(mem, upper - delta, upper, ptr - upper + NODESIZE);
    } else {
      SplicedSame(was, upper, ptr + NODESIZE);
    }
    MemCopy(mem, ptr - delta + 6, U16(|key|));
    MemCopy(mem, ptr - delta + NODESIZE, key);
    KeyWritten(was, upper, ptr, delta, o, n);
  }

  lemma SplicedSame(s: seq<byte>, p: nat, q: nat)
    requires p <= q <= |s|
    ensures Spliced(s, p, s[p..q]) == s
  {
    SplicedAt(s, p, s[p..q]);
    hide Spliced;
    assert Spliced(s, p, s[p..q]) == s;
  }

  lemma KeyFits(n: Node)
    ensures NODESIZE + |n.key| <= Size(n)
  {
  }

  /** The bytes after the move of `header`, the write of mn_ksize and of the key. */
  function Rewritten(was: seq<byte>, upper: nat, ptr: nat, delta: int, key: seq<byte>): (r: seq<byte>)
    requires upper <= ptr && 0 <= upper - delta && ptr + NODESIZE <= |was| && ptr - delta + NODESIZE + |key| <= |was|
    requires |key| < 65536
    ensures |r| == |was|
  {
    var moved := Spliced(was, upper - delta, was[upper..upper + (ptr - upper + NODESIZE)]);
    Spliced(Spliced(moved, ptr - delta + 6, U16(|key|)), ptr - delta + NODESIZE, key)
  }

  lemma RewrittenAt(was: seq<byte>, upper: nat, ptr: nat, delta: int, key: seq<byte>)
    requires upper <= ptr && 0 <= upper - delta && ptr + NODESIZE <= |was| && ptr - delta + NODESIZE + |key| <= |was|
    requires |key| < 65536
    ensures var now, q := Rewritten(was, upper, ptr, delta, key), ptr - delta;
            && (forall j :: upper - delta <= j < q + 6 ==> now[j] == was[j + delta])
            && now[q + 6] == U16(|key|)[0] && now[q + 7] == U16(|key|)[1]
            && (forall j :: q + 8 <= j < q + 8 + |key| ==> now[j] == key[j - (q + 8)])
            && forall j :: q + 8 + |key| <= j < |was| ==> now[j] == was[j]
  {
    hide Spliced, U16, Rewritten;
    var now, q := Rewritten(was, upper, ptr, delta, key), ptr - delta;
    forall j | upper - delta <= j < q + 6
      ensures now[j] == was[j + delta] { RewrittenByte(was, upper, ptr, delta, key, j); }
    RewrittenByte(was, upper, ptr, delta, key, q + 6);
    RewrittenByte(was, upper, ptr, delta, key, q + 7);
    forall j | q + 8 <= j < q + 8 + |key|
      ensures now[j] == key[j - (q + 8)] { RewrittenByte(was, upper, ptr, delta, key, j); }
    forall j | q + 8 + |key| <= j < |was| ensures now[j] == was[j] { RewrittenByte(was, upper, ptr, delta, key, j); }
  }

  lemma RewrittenByte(was: seq<byte>, upper: nat, ptr: nat, delta: int, key: seq<byte>, j: nat)
    requires upper <= ptr && 0 <= upper - delta <= j < |was| && ptr + NODESIZE <= |was|
    requires ptr - delta + NODESIZE + |key| <= |was| && |key| < 65536
    ensures var q := ptr - delta;
            Rewritten(was, upper, ptr, delta, key)[j] ==
              if j < q + 6 then was[j + delta] else if j < q + 8 then U16(|key|)[j - (q + 6)]
                else if j < q + 8 + |key| then key[j - (q + 8)] else was[j]
  {
    hide Spliced, U16;
    var q := ptr - delta;
    var header := was[upper..upper + (ptr - upper + NODESIZE)];
    SplicedAt(was, upper - delta, header);
    var moved := Spliced(was, upper - delta, header);
    SplicedAt(moved, q + 6, U16(|key|));
    var sized := Spliced(moved, q + 6, U16(|key|));
    SplicedAt(sized, q + NODESIZE, key);
  }

  lemma KeyWritten(was: seq<byte>, upper: nat, ptr: nat, delta: int, o: Node, n: Node)
    requires upper <= ptr && ptr + Size(o) <= |was| && 0 <= upper - delta
    requires |n.hdr| == 6 && n.data == [] && |n.key| < 65536 && Size(n) == Size(o) + delta && Size(o) >= NODESIZE
    requires NODESIZE + |n.key| <= Size(n)
    requires was[ptr..ptr + 6] == n.hdr
    ensures var now := Rewritten(was, upper, ptr, delta, n.key);
            MovedDown(was, now, upper, ptr, delta, Size(o)) && NodeAt(now, ptr - delta, n)
  {
    hide Size, Rewritten;
    var q: nat := ptr - delta;
    RewrittenAt(was, upper, ptr, delta, n.key);
    var now := Rewritten(was, upper, ptr, delta, n.key);
    assert now[ptr + Size(o)..] == was[ptr + Size(o)..];
    assert now[upper - delta..q] == was[upper..ptr];
    var b := Bytes(n);
    forall j | 0 <= j < |b| ensures now[q + j] == b[j] {
      if j < 6 { assert was[ptr..ptr + 6][j] == n.hdr[j]; }
    }
    assert now[q..q + |b|] == b;
  }

  /** Nodes up to ptr move by -delta. */
  method ShiftPtrs(ptrs: array<nat>, n: nat, ptr: nat, ghost upper: nat, delta: int)
    requires n <= ptrs.Length && delta <= upper && forall k :: 0 <= k < n ==> ptrs[..n][k] >= upper
    modifies ptrs
    ensures Lowered(old(ptrs[..n]), ptrs[..n], ptr, delta)
  {
    ghost var was := ptrs[..n];
    var i := 0;
    while i < n
      invariant i <= n
      invariant forall k :: 0 <= k < i ==> ptrs[k] == if was[k] <= ptr then was[k] - delta else was[k]
      invariant forall k :: i <= k < n ==> ptrs[k] == was[k] >= upper
    {
      if ptrs[i] <= ptr { ptrs[i] := ptrs[i] - delta; }
      i := i + 1;
    }
  }

  lemma KeptAbove(was: seq<byte>, p: nat, n: Node, upper: nat)
    requires |n.hdr| == 6 && |n.key| < 65536 && p + Size(n) == upper <= |was|
    ensures p + |Bytes(n)| <= |was|
    ensures var mem := Spliced(was, p, Bytes(n)); mem[upper..] == was[upper..] && NodeAt(mem, p, n)
  {
    var b := Bytes(n);
    var mem := Spliced(was, p, b);
    SplicedAt(was, p, b);
    hide Bytes, Spliced;
    assert |b| <= Size(n);
    assert mem[p..p + |b|] == b;
    assert mem[upper..] == was[upper..];
  }

  /** Write a new node just below upper. */
  method WriteNode(mem: array<byte>, p: nat, n: Node, upper: nat, ghost leaf: bool)
    requires p + Size(n) == upper <= mem.Length && WellFormed(n, leaf)
    modifies mem
    ensures NodeAt(mem[..], p, n) && mem[..][upper..] == old(mem[..])[upper..]
  {
    ghost var was := mem[..];
    SixBytes(n, leaf);
    KeptAbove(was, p, n, upper);
    hide Bytes, Size, NodeAt, WellFormed, Spliced;
    MemCopy(mem, p, Bytes(n));
  }

  method InsertPtr(ptrs: array<nat>, n: nat, x: nat, p: nat)
    requires x <= n < ptrs.Length
    modifies ptrs
    ensures ptrs[..n + 1] == Inserted(old(ptrs[..n]), x, p)
  {
    ghost var was := ptrs[..n];
    var i := n;
    while i > x
      invariant x <= i <= n
      invariant forall k :: 0 <= k < i ==> ptrs[k] == was[k]
      invariant forall k :: i < k <= n ==> ptrs[k] == was[k - 1]
    {
      ptrs[i] := ptrs[i - 1];
      i := i - 1;
    }
    ptrs[x] := p;
    ghost var t := Inserted(was, x, p);
    forall k | 0 <= k <= n ensures ptrs[k] == t[k] {
      if k > x { assert was[x..][k - x - 1] == was[k - 1]; }
    }
  }
}
