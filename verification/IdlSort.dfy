/** mdb_midl_sort: quicksort with an explicit stack, insertion sort for small segments. */
module IdlSort {
  import opened Idl
  import opened Seqs

  /** t is s with the elements of [l..r) permuted. */
  ghost predicate RangePerm(s: seq<Id>, t: seq<Id>, l: nat, r: nat) {
    && l <= r <= |s| == |t|
    && (forall k :: 0 <= k < l ==> t[k] == s[k])
    && (forall k :: r <= k < |s| ==> t[k] == s[k])
    && multiset(s) == multiset(t)
  }

  lemma BagCancel(a: multiset<Id>, b: multiset<Id>, x: multiset<Id>, y: multiset<Id>)
    requires a + x + b == a + y + b
    ensures x == y
  {
    forall v ensures x[v] == y[v] {
      assert (a + x + b)[v] == a[v] + x[v] + b[v];
      assert (a + y + b)[v] == a[v] + y[v] + b[v];
    }
  }

  lemma RangeBag(s: seq<Id>, t: seq<Id>, l: nat, r: nat)
    requires RangePerm(s, t, l, r)
    ensures multiset(s[l..r]) == multiset(t[l..r])
  {
    BagCut(s, l, r);
    BagCut(t, l, r);
    assert s[..l] == t[..l] && s[r..] == t[r..];
    BagCancel(multiset(s[..l]), multiset(s[r..]), multiset(s[l..r]), multiset(t[l..r]));
  }

  lemma BagCut(s: seq<Id>, l: nat, r: nat)
    requires l <= r <= |s|
    ensures multiset(s) == multiset(s[..l]) + multiset(s[l..r]) + multiset(s[r..])
  {
    assert s == s[..l] + s[l..r] + s[r..];
  }

  lemma SwapPerm(s: seq<Id>, p: nat, q: nat, l: nat, r: nat)
    requires l <= p < r <= |s| && l <= q < r
    ensures RangePerm(s, s[p := s[q]][q := s[p]], l, r)
  {
  }

  /** Element j taken out and put back at position i <= j, the elements between moved up. */
  function Rotated(s: seq<Id>, i: nat, j: nat): seq<Id>
    requires i <= j < |s|
  {
    s[..i] + [s[j]] + s[i..j] + s[j + 1..]
  }

  lemma RotatedPerm(s: seq<Id>, i: nat, j: nat, l: nat, r: nat)
    requires l <= i <= j < r <= |s|
    ensures RangePerm(s, Rotated(s, i, j), l, r)
  {
    assert s == s[..i] + s[i..j] + [s[j]] + s[j + 1..];
  }

  lemma PermTrans(s: seq<Id>, t: seq<Id>, u: seq<Id>, l: nat, r: nat)
    requires RangePerm(s, t, l, r) && RangePerm(t, u, l, r)
    ensures RangePerm(s, u, l, r)
  {
  }

  /** A permuted range takes its values from the same range. */
  lemma PermSource(s: seq<Id>, t: seq<Id>, l: nat, r: nat, p: nat) returns (q: nat)
    requires RangePerm(s, t, l, r) && l <= p < r
    ensures l <= q < r && s[q] == t[p]
  {
    RangeBag(s, t, l, r);
    assert t[l..r][p - l] in multiset(t[l..r]);
    assert t[p] in s[l..r];
    q :| l <= q < r && s[q] == t[p];
  }

  lemma PermWiden(s: seq<Id>, t: seq<Id>, l: nat, r: nat, l': nat, r': nat)
    requires RangePerm(s, t, l, r) && l' <= l && r <= r' <= |s|
    ensures RangePerm(s, t, l', r')
  {
  }

  // ---------------------------------------------------------------- insertion sort of one segment

  /** Everything in front of l is >= everything in [l..r). */
  ghost predicate FrontAbove(s: seq<Id>, l: nat, r: nat) {
    l <= r <= |s| && forall p, q :: 1 <= p < l <= q < r ==> s[p] >= s[q]
  }

  ghost predicate DescendingIn(s: seq<Id>, l: nat, r: nat) {
    l <= r <= |s| && forall p, q :: l <= p < q < r ==> s[p] >= s[q]
  }

  lemma RotatedSorted(s: seq<Id>, i: nat, j: nat, l: nat)
    requires 1 <= l <= i <= j < |s| && DescendingIn(s, l, j)
    requires forall p :: i <= p < j ==> s[p] < s[j]
    requires i > l ==> s[i - 1] >= s[j]
    ensures DescendingIn(Rotated(s, i, j), l, j + 1)
  {
    var t := Rotated(s, i, j);
    forall p, q | l <= p < q < j + 1 ensures t[p] >= t[q] {
      assert t[p] == if p < i then s[p] else if p == i then s[j] else s[p - 1];
      assert t[q] == if q < i then s[q] else if q == i then s[j] else s[q - 1];
    }
  }

  lemma FrontAbovePerm(s: seq<Id>, t: seq<Id>, l: nat, r: nat)
    requires FrontAbove(s, l, r) && RangePerm(s, t, l, r)
    ensures FrontAbove(t, l, r)
  {
    forall p, q | 1 <= p < l <= q < r ensures t[p] >= t[q] {
      var q' := PermSource(s, t, l, r, q);
    }
  }

  /** Move ids[j] down past the smaller IDs; the scan has no lower bound but index 1. */
  method InsertShift(ids: array<Id>, j: nat) returns (i: nat)
    requires 1 <= j < ids.Length
    modifies ids
    ensures 1 <= i <= j && ids[..] == Rotated(old(ids[..]), i, j)
    ensures forall p :: i <= p < j ==> old(ids[p]) < old(ids[j])
    ensures i > 1 ==> old(ids[i - 1]) >= old(ids[j])
  {
    ghost var s := ids[..];
    var a := ids[j];
    i := j;
    while i > 1 && ids[i - 1] < a
      invariant 1 <= i <= j
      invariant forall p :: 0 <= p <= i && p < j ==> ids[p] == s[p]
      invariant forall p :: i < p <= j ==> ids[p] == s[p - 1]
      invariant forall p :: j < p < ids.Length ==> ids[p] == s[p]
      invariant forall p :: i <= p < j ==> s[p] < a
    {
      ids[i] := ids[i - 1];
      i := i - 1;
    }
    ids[i] := a;
    assert ids[..] == Rotated(s, i, j);
  }

  /** Inserting ids[j] into a sorted segment never leaves the segment. */
  method InsertOne(ids: array<Id>, l: nat, j: nat)
    requires 1 <= l < j < ids.Length
    requires FrontAbove(ids[..], l, j + 1) && DescendingIn(ids[..], l, j)
    modifies ids
    ensures RangePerm(old(ids[..]), ids[..], l, j + 1) && DescendingIn(ids[..], l, j + 1)
  {
    ghost var s := ids[..];
    var i := InsertShift(ids, j);
    assert l > 1 ==> s[l - 1] >= s[j];
    RotatedPerm(s, i, j, l, j + 1);
    RotatedSorted(s, i, j, l);
  }

  method InsertionSort(ids: array<Id>, l: nat, ir: int)
    requires 1 <= l && l - 1 <= ir < ids.Length
    requires FrontAbove(ids[..], l, ir + 1)
    modifies ids
    ensures RangePerm(old(ids[..]), ids[..], l, ir + 1) && DescendingIn(ids[..], l, ir + 1)
  {
    ghost var s := ids[..];
    var j: nat := l + 1;
    while j <= ir
      invariant j == l + 1 || l + 1 <= j <= ir + 1
      invariant RangePerm(s, ids[..], l, ir + 1)
      invariant FrontAbove(ids[..], l, ir + 1)
      invariant DescendingIn(ids[..], l, if j <= ir + 1 then j else ir + 1)
    {
      ghost var t := ids[..];
      InsertOne(ids, l, j);
      PermWiden(t, ids[..], l, j + 1, l, ir + 1);
      PermTrans(s, t, ids[..], l, ir + 1);
      FrontAbovePerm(t, ids[..], l, ir + 1);
      j := j + 1;
    }
  }

  // ---------------------------------------------------------------- partition

  method Swap(ids: array<Id>, p: nat, q: nat, ghost l: nat, ghost r: nat)
    requires l <= p < r <= ids.Length && l <= q < r
    modifies ids
    ensures ids[..] == old(ids[..][p := ids[q]][q := ids[p]])
    ensures RangePerm(old(ids[..]), ids[..], l, r)
  {
    SwapPerm(ids[..], p, q, l, r);
    var itmp := ids[p];
    ids[p] := ids[q];
    ids[q] := itmp;
    assert ids[..] == old(ids[..][p := ids[q]][q := ids[p]]);
  }

  /** Put the larger of two IDs at p. */
  method Order(ids: array<Id>, p: nat, q: nat, ghost l: nat, ghost r: nat, ghost s: seq<Id>)
    requires l <= p < r <= ids.Length && l <= q < r && p != q
    requires RangePerm(s, ids[..], l, r)
    modifies ids
    ensures RangePerm(s, ids[..], l, r)
    ensures ids[p] == (if old(ids[p]) < old(ids[q]) then old(ids[q]) else old(ids[p]))
    ensures ids[q] == (if old(ids[p]) < old(ids[q]) then old(ids[p]) else old(ids[q]))
    ensures forall k :: 0 <= k < ids.Length && k != p && k != q ==> ids[k] == old(ids[k])
  {
    if ids[p] < ids[q] {
      ghost var t := ids[..];
      Swap(ids, p, q, l, r);
      PermTrans(s, t, ids[..], l, r);
      assert forall k :: 0 <= k < ids.Length ==> ids[k] == ids[..][k];
    }
  }

  /** Median of left, center and right goes to l + 1, the other two become scan guards. */
  method MedianOfThree(ids: array<Id>, l: nat, ir: nat)
    requires 1 <= l && l + 8 <= ir < ids.Length
    modifies ids
    ensures RangePerm(old(ids[..]), ids[..], l, ir + 1)
    ensures ids[l] >= ids[l + 1] >= ids[ir]
  {
    hide RangePerm;
    ghost var s := ids[..];
    var k := (l + ir) / 2;
    Swap(ids, k, l + 1, l, ir + 1);
    Order(ids, l, ir, l, ir + 1, s);
    Order(ids, l + 1, ir, l, ir + 1, s);
    Order(ids, l, l + 1, l, ir + 1, s);
  }

  /** Left of i nothing is below a, from j on nothing is above a. */
  ghost predicate Scanned(s: seq<Id>, a: Id, l: nat, i: nat, j: nat, ir: nat) {
    && l + 1 <= i <= j <= ir < |s| && l + 2 <= ir
    && s[l + 1] == a
    && (forall p :: l <= p <= i ==> s[p] >= a)
    && (forall q :: j <= q <= ir ==> s[q] <= a)
    && ((i == l + 1 && j == ir) || (l + 2 <= i && j < ir))
  }

  lemma ScanNoGap(s: seq<Id>, a: Id, l: nat, i0: nat, j0: nat, ir: nat, i: nat, j: nat)
    requires Scanned(s, a, l, i0, j0, ir)
    requires i0 < i <= ir && j < j0 && i0 <= j + 1 && (i <= j0 || (i0 == j0 && i == j0 + 1))
    requires forall p :: i0 < p < i ==> s[p] > a
    requires forall q :: j < q < j0 ==> s[q] < a
    ensures i <= j + 2
  {
    var p := if j + 1 > i0 then j + 1 else i0 + 1;
    var v := s[p];
  }

  /** The two inner scans; neither tests a bound, the guards stop them inside [l..ir]. */
  method Scan(ids: array<Id>, a: Id, l: nat, i0: nat, j0: nat, ir: nat) returns (i: nat, j: nat)
    requires Scanned(ids[..], a, l, i0, j0, ir)
    ensures l + 1 <= i0 < i <= ir < ids.Length && l + 1 <= j < j0 < ids.Length && j + 2 >= i
    ensures ids[i] <= a <= ids[j]
    ensures forall p :: i0 < p < i ==> ids[p] > a
    ensures forall q :: j < q < j0 ==> ids[q] < a
  {
    assert forall p :: 0 <= p < ids.Length ==> ids[..][p] == ids[p];
    i := i0 + 1;
    while ids[i] > a
      invariant i0 < i <= ir
      invariant i <= j0 || (i0 == j0 && i == j0 + 1)
      invariant forall p :: i0 < p < i ==> ids[p] > a
      decreases ir - i
    {
      i := i + 1;
    }
    j := j0 - 1;
    while ids[j] < a
      invariant l + 1 <= j < j0
      invariant i0 <= j + 1
      invariant forall q :: j < q < j0 ==> ids[q] < a
      decreases j
    {
      j := j - 1;
    }
    ScanNoGap(ids[..], a, l, i0, j0, ir, i, j);
  }

  /** [l..j) is >= the pivot at j, (j..i) equals it, [i..ir] is <= it. */
  ghost predicate Partitioned(s: seq<Id>, l: nat, i: nat, j: nat, ir: nat) {
    && l <= j < i <= ir + 1 <= |s|
    && (forall p :: l <= p < j ==> s[p] >= s[j])
    && (forall p :: j < p < i ==> s[p] == s[j])
    && (forall q :: i <= q <= ir ==> s[q] <= s[j])
  }

  /** Crossed scans: exchanging the pivot slot l + 1 with j partitions the segment. */
  lemma ScanEnd(s: seq<Id>, a: Id, l: nat, i0: nat, j0: nat, ir: nat, i: nat, j: nat)
    requires Scanned(s, a, l, i0, j0, ir)
    requires i0 < i <= ir && l + 1 <= j < j0 && j < i <= j + 2
    requires s[i] <= a <= s[j]
    requires forall p :: i0 < p < i ==> s[p] > a
    requires forall q :: j < q < j0 ==> s[q] < a
    ensures Partitioned(s[l + 1 := s[j]][j := s[l + 1]], l, i, j, ir)
  {
    var t := s[l + 1 := s[j]][j := s[l + 1]];
    forall p | l <= p < j ensures t[p] >= a {
      if p > i0 && p != l + 1 { assert s[p] > a; }
    }
    forall p | j < p < i ensures t[p] == a {
      assert t[p] == s[p];
    }
    forall q | i <= q <= ir ensures t[q] <= a {
      if q < j0 { assert s[q] < a; }
    }
  }

  lemma ScanNext(s: seq<Id>, a: Id, l: nat, i0: nat, j0: nat, ir: nat, i: nat, j: nat)
    requires Scanned(s, a, l, i0, j0, ir)
    requires i0 < i <= j < j0 && s[i] <= a <= s[j]
    requires forall p :: i0 < p < i ==> s[p] > a
    requires forall q :: j < q < j0 ==> s[q] < a
    ensures Scanned(s[i := s[j]][j := s[i]], a, l, i, j, ir)
  {
    var t := s[i := s[j]][j := s[i]];
    forall p | l <= p <= i ensures t[p] >= a {
      if i0 < p < i { assert s[p] > a; }
    }
    forall q | j <= q <= ir ensures t[q] <= a {
      if j < q < j0 { assert s[q] < a; }
    }
  }

  /** Scan and exchange until the scans cross. */
  method ScanAll(ids: array<Id>, a: Id, l: nat, ir: nat, ghost s: seq<Id>) returns (i: nat, j: nat)
    requires Scanned(ids[..], a, l, l + 1, ir, ir) && RangePerm(s, ids[..], l, ir + 1)
    modifies ids
    ensures l <= j < i <= ir + 1 && l + 1 <= j
    ensures RangePerm(s, ids[..], l, ir + 1)
    ensures Partitioned(ids[..][l + 1 := ids[j]][j := ids[l + 1]], l, i, j, ir)
  {
    hide *;
    i, j := l + 1, ir;
    while true
      invariant RangePerm(s, ids[..], l, ir + 1) && Scanned(ids[..], a, l, i, j, ir)
      decreases j
    {
      ghost var t := ids[..];
      var i', j' := Scan(ids, a, l, i, j, ir);
      if j' < i' {
        ScanEnd(ids[..], a, l, i, j, ir, i', j');
        return i', j';
      }
      ScanNext(t, a, l, i, j, ir, i', j');
      Swap(ids, i', j', l, ir + 1);
      PermTrans(s, t, ids[..], l, ir + 1);
      i, j := i', j';
    }
  }

  method Partition(ids: array<Id>, l: nat, ir: nat) returns (i: nat, j: nat)
    requires 1 <= l && l + 8 <= ir < ids.Length
    modifies ids
    ensures RangePerm(old(ids[..]), ids[..], l, ir + 1)
    ensures Partitioned(ids[..], l, i, j, ir) && l + 1 <= j
  {
    ghost var s := ids[..];
    MedianOfThree(ids, l, ir);
    i, j := ScanAll(ids, ids[l + 1], l, ir, s);
    ghost var t := ids[..];
    Swap(ids, l + 1, j, l, ir + 1);
    PermTrans(s, t, ids[..], l, ir + 1);
  }

  // ---------------------------------------------------------------- the whole sort

  datatype Segment = Segment(lo: int, hi: int)

  function Size(g: Segment): int {
    g.hi - g.lo + 1
  }

  /** Positions p and q lie in one segment still to be sorted. */
  ghost predicate Pending(segs: seq<Segment>, p: int, q: int) {
    exists d :: 0 <= d < |segs| && segs[d].lo <= p && q <= segs[d].hi
  }

  /** Every pair is in order unless it lies inside one pending segment; segments are apart. */
  ghost predicate Ordered(s: seq<Id>, n: nat, segs: seq<Segment>) {
    && n < |s|
    && (forall d :: 0 <= d < |segs| ==> 1 <= segs[d].lo <= segs[d].hi + 1 && segs[d].hi <= n)
    && (forall d, e :: 0 <= d < e < |segs| ==> segs[d].hi < segs[e].lo || segs[e].hi < segs[d].lo)
    && (forall p, q :: 1 <= p < q <= n && !Pending(segs, p, q) ==> s[p] >= s[q])
  }

  /** The stack array holds the pending segments, two slots each, slot 0 unused. */
  ghost predicate StackHolds(istack: array<int>, jstack: nat, segs: seq<Segment>)
    reads istack
  {
    && istack.Length == 64 && jstack == 2 * |segs| < 64
    && (forall d :: 0 <= d < |segs| ==> istack[2 * d + 1] == segs[d].lo && istack[2 * d + 2] == segs[d].hi)
  }

  /** Halving: the segment at depth d has at most n / 2^d elements. */
  ghost predicate Halved(segs: seq<Segment>, n: nat) {
    forall d :: 0 <= d < |segs| ==> Size(segs[d]) * Pow2(d) <= n
  }

  lemma {:induction false} Pow2Grows(d: nat, e: nat)
    requires d <= e
    ensures Pow2(d) <= Pow2(e)
    decreases e
  {
    if d < e { Pow2Grows(d, e - 1); }
  }

  lemma Pow2At28()
    ensures Pow2(28) == 0x1000_0000
  {
    assert Pow2(7) == 128;
    assert Pow2(14) == 128 * 128;
    assert Pow2(21) == 128 * 128 * 128;
  }

  lemma MulMono(a: int, b: int, c: nat)
    requires a <= b
    ensures a * c <= b * c
  {
  }

  /** A segment large enough to be partitioned lies at depth 27 at most. */
  lemma DepthBound(size: int, d: nat, n: nat)
    requires size >= 9 && size * Pow2(d) <= n < 0x8000_0000
    ensures d <= 27
  {
    if d >= 28 {
      Pow2Grows(28, d);
      Pow2At28();
      MulMono(9, size, Pow2(d));
    }
  }

  function Work(segs: seq<Segment>): int {
    if segs == [] then 0 else 2 * Size(segs[|segs| - 1]) + 1 + Work(segs[..|segs| - 1])
  }

  lemma WorkSnoc(segs: seq<Segment>, g: Segment)
    ensures Work(segs + [g]) == 2 * Size(g) + 1 + Work(segs)
  {
    assert (segs + [g])[..|segs|] == segs;
  }

  lemma {:induction false} WorkNat(segs: seq<Segment>)
    requires forall d :: 0 <= d < |segs| ==> Size(segs[d]) >= 0
    ensures Work(segs) >= 0
  {
    if segs != [] { WorkNat(segs[..|segs| - 1]); }
  }

  /** What precedes a pending segment is in order with it: the insertion sort may look back. */
  lemma OrderedFront(s: seq<Id>, n: nat, segs: seq<Segment>, g: Segment)
    requires Ordered(s, n, segs + [g])
    ensures g.lo >= 1 && g.hi < |s| && g.lo - 1 <= g.hi && FrontAbove(s, g.lo, g.hi + 1)
  {
    var all := segs + [g];
    assert all[|segs|] == g;
    forall p, q | 1 <= p < g.lo <= q < g.hi + 1 ensures s[p] >= s[q] {
      assert !Pending(all, p, q);
    }
  }

  lemma PermPair(s: seq<Id>, t: seq<Id>, l: nat, r: nat, p: nat) returns (p': nat)
    requires RangePerm(s, t, l, r) && p < |s|
    ensures p' < |s| && t[p] == s[p']
    ensures if l <= p < r then l <= p' < r else p' == p
  {
    if l <= p < r {
      p' := PermSource(s, t, l, r, p);
    } else {
      p' := p;
    }
  }

  /** Permuting inside segment g keeps every pair that g does not contain. */
  lemma PermKeepsPairs(s: seq<Id>, t: seq<Id>, n: nat, segs: seq<Segment>, g: Segment, p: nat, q: nat)
    requires Ordered(s, n, segs + [g]) && 0 <= g.lo <= g.hi + 1 && RangePerm(s, t, g.lo, g.hi + 1)
    requires 1 <= p < q <= n && !Pending(segs, p, q) && !(g.lo <= p && q <= g.hi)
    ensures t[p] >= t[q]
  {
    var all := segs + [g];
    assert all[|segs|] == g;
    var p' := PermPair(s, t, g.lo, g.hi + 1, p);
    var q' := PermPair(s, t, g.lo, g.hi + 1, q);
    forall d | 0 <= d < |all| ensures !(all[d].lo <= p' && q' <= all[d].hi) {
      assert d < |segs| ==> all[d] == segs[d];
    }
  }

  /** A sorted segment is no longer pending. */
  lemma OrderedFinish(s: seq<Id>, t: seq<Id>, n: nat, segs: seq<Segment>, g: Segment)
    requires Ordered(s, n, segs + [g]) && 0 <= g.lo <= g.hi + 1
    requires RangePerm(s, t, g.lo, g.hi + 1) && DescendingIn(t, g.lo, g.hi + 1)
    ensures Ordered(t, n, segs)
  {
    var all := segs + [g];
    assert forall d :: 0 <= d < |segs| ==> all[d] == segs[d];
    forall p, q | 1 <= p < q <= n && !Pending(segs, p, q) ensures t[p] >= t[q] {
      if !(g.lo <= p && q <= g.hi) {
        PermKeepsPairs(s, t, n, segs, g, p, q);
      }
    }
  }

  /** A partitioned segment is replaced by its two sides. */
  lemma OrderedSplit(s: seq<Id>, t: seq<Id>, n: nat, segs: seq<Segment>, g: Segment, a: Segment, b: Segment, i: nat,
                     j: nat)
    requires Ordered(s, n, segs + [g]) && 0 <= g.lo <= g.hi
    requires RangePerm(s, t, g.lo, g.hi + 1) && Partitioned(t, g.lo, i, j, g.hi)
    requires (a == Segment(g.lo, j - 1) && b == Segment(i, g.hi)) ||
      (b == Segment(g.lo, j - 1) && a == Segment(i, g.hi))
    ensures Ordered(t, n, segs + [a] + [b])
  {
    var all := segs + [g];
    var after := segs + [a] + [b];
    assert all[|segs|] == g && after[|segs|] == a && after[|segs| + 1] == b;
    assert forall d :: 0 <= d < |segs| ==> all[d] == segs[d] == after[d];
    forall p, q | 1 <= p < q <= n && !Pending(after, p, q) ensures t[p] >= t[q] {
      forall d | 0 <= d < |segs| ensures !(segs[d].lo <= p && q <= segs[d].hi) {
        assert after[d] == segs[d];
      }
      if !(g.lo <= p && q <= g.hi) {
        PermKeepsPairs(s, t, n, segs, g, p, q);
      } else {
        assert !(after[|segs|].lo <= p && q <= after[|segs|].hi);
        assert !(after[|segs| + 1].lo <= p && q <= after[|segs| + 1].hi);
      }
    }
  }

  lemma HalvedSplit(segs: seq<Segment>, g: Segment, a: Segment, b: Segment, n: nat)
    requires Halved(segs + [g], n) && Size(a) >= Size(b) >= 0 && Size(a) + Size(b) < Size(g)
    ensures Halved(segs + [a] + [b], n)
  {
    var all := segs + [g];
    var after := segs + [a] + [b];
    assert all[|segs|] == g;
    MulMono(Size(a), Size(g), Pow2(|segs|));
    MulMono(2 * Size(b), Size(g), Pow2(|segs|));
    forall d | 0 <= d < |after| ensures Size(after[d]) * Pow2(d) <= n {
      if d < |segs| {
        assert all[d] == after[d];
      } else if d == |segs| + 1 {
        assert Size(b) * Pow2(d) == 2 * Size(b) * Pow2(|segs|);
      }
    }
  }

  lemma HalvedPop(segs: seq<Segment>, g: Segment, n: nat)
    requires Halved(segs + [g], n)
    ensures Halved(segs, n)
  {
    assert forall d :: 0 <= d < |segs| ==> (segs + [g])[d] == segs[d];
  }

  /** The state between two rounds of the sort. */
  ghost predicate Sorting(s0: seq<Id>, s: seq<Id>, n: nat, segs: seq<Segment>, g: Segment) {
    RangePerm(s0, s, 1, n + 1) && Ordered(s, n, segs + [g]) && Halved(segs + [g], n)
  }

  lemma SortingStart(s: seq<Id>, n: nat)
    requires n < |s|
    ensures Sorting(s, s, n, [], Segment(1, n))
  {
    var all := [] + [Segment(1, n)];
    assert all == [Segment(1, n)] && Pow2(0) == 1;
    forall p, q | 1 <= p < q <= n ensures Pending(all, p, q) {
      assert all[0].lo <= p && q <= all[0].hi;
    }
  }

  lemma SegmentFacts(s0: seq<Id>, s: seq<Id>, n: nat, segs: seq<Segment>, g: Segment)
    requires n < 0x8000_0000 && Sorting(s0, s, n, segs, g) && Size(g) >= 9
    ensures 1 <= g.lo && g.hi < |s| && |segs| <= 27
  {
    assert (segs + [g])[|segs|] == g;
    DepthBound(Size(g), |segs|, n);
  }

  /** One partitioning keeps the sort's state and lowers its measure. */
  lemma SortingSplit(s0: seq<Id>, s: seq<Id>, t: seq<Id>, n: nat, segs: seq<Segment>, g: Segment,
                     a: Segment, b: Segment, i: nat, j: nat)
    requires Sorting(s0, s, n, segs, g) && 0 <= g.lo <= g.hi
    requires RangePerm(s, t, g.lo, g.hi + 1) && Partitioned(t, g.lo, i, j, g.hi)
    requires (a == Segment(g.lo, j - 1) && b == Segment(i, g.hi)) ||
      (b == Segment(g.lo, j - 1) && a == Segment(i, g.hi))
    requires Size(a) >= Size(b)
    ensures Sorting(s0, t, n, segs + [a], b)
    ensures Work(segs + [a] + [b]) < Work(segs + [g])
  {
    assert (segs + [g])[|segs|] == g;
    PermWiden(s, t, g.lo, g.hi + 1, 1, n + 1);
    PermTrans(s0, s, t, 1, n + 1);
    OrderedSplit(s, t, n, segs, g, a, b, i, j);
    HalvedSplit(segs, g, a, b, n);
    WorkSnoc(segs, g);
    WorkSnoc(segs, a);
    WorkSnoc(segs + [a], b);
  }

  lemma SortingFront(s0: seq<Id>, s: seq<Id>, n: nat, segs: seq<Segment>, g: Segment)
    requires Sorting(s0, s, n, segs, g)
    ensures 1 <= g.lo && g.hi < |s| && g.lo - 1 <= g.hi && FrontAbove(s, g.lo, g.hi + 1)
    ensures Work(segs + [g]) >= 0
  {
    OrderedFront(s, n, segs, g);
    WorkNat(segs + [g]);
  }

  /** A sorted segment leaves the state one segment shorter. */
  lemma SortingFinish(s0: seq<Id>, s: seq<Id>, t: seq<Id>, n: nat, segs: seq<Segment>, g: Segment)
    requires Sorting(s0, s, n, segs, g) && 1 <= g.lo <= g.hi + 1 <= |s|
    requires RangePerm(s, t, g.lo, g.hi + 1) && DescendingIn(t, g.lo, g.hi + 1)
    ensures RangePerm(s0, t, 1, n + 1) && Ordered(t, n, segs) && Halved(segs, n)
    ensures Work(segs) < Work(segs + [g])
  {
    assert (segs + [g])[|segs|] == g;
    PermWiden(s, t, g.lo, g.hi + 1, 1, n + 1);
    PermTrans(s0, s, t, 1, n + 1);
    OrderedFinish(s, t, n, segs, g);
    HalvedPop(segs, g, n);
    WorkSnoc(segs, g);
  }

  lemma SortingPop(s0: seq<Id>, t: seq<Id>, n: nat, segs: seq<Segment>)
    requires RangePerm(s0, t, 1, n + 1) && Ordered(t, n, segs) && Halved(segs, n) && segs != []
    ensures segs == segs[..|segs| - 1] + [segs[|segs| - 1]]
    ensures Sorting(s0, t, n, segs[..|segs| - 1], segs[|segs| - 1]) && segs[|segs| - 1].lo >= 1
  {
    assert segs == segs[..|segs| - 1] + [segs[|segs| - 1]];
  }

  /** Partition the current segment, push its larger side, go on with the smaller. */
  method PartitionStep(ids: array<Id>, istack: array<int>, l0: nat, ir0: int, jstack0: nat,
                       ghost s0: seq<Id>, ghost n: nat, ghost segs0: seq<Segment>)
      returns (l: nat, ir: int, jstack: nat, ghost segs: seq<Segment>)
    requires n < 0x8000_0000 && l0 + 8 <= ir0
    requires StackHolds(istack, jstack0, segs0) && Sorting(s0, ids[..], n, segs0, Segment(l0, ir0))
    modifies ids, istack
    ensures StackHolds(istack, jstack, segs) && Sorting(s0, ids[..], n, segs, Segment(l, ir))
    ensures Work(segs + [Segment(l, ir)]) < Work(segs0 + [Segment(l0, ir0)])
  {
    hide Sorting, Partitioned, RangePerm, Work;
    ghost var s := ids[..];
    ghost var g := Segment(l0, ir0);
    segs := segs0;
    SegmentFacts(s0, s, n, segs, g);
    var i, j := Partition(ids, l0, ir0);
    ghost var t := ids[..];
    jstack := jstack0 + 2;
    ghost var left, right := Segment(l0, j - 1), Segment(i, ir0);
    if ir0 - i + 1 >= j - l0 {
      SortingSplit(s0, s, t, n, segs, g, right, left, i, j);
      istack[jstack] := ir0;
      istack[jstack - 1] := i;
      l, ir := l0, j - 1;
      segs := segs + [right];
    } else {
      SortingSplit(s0, s, t, n, segs, g, left, right, i, j);
      istack[jstack] := j - 1;
      istack[jstack - 1] := l0;
      l, ir := i, ir0;
      segs := segs + [left];
    }
    assert ids[..] == t;
  }

  /** Sort in place, descending; the count is what the source holds in a C int. */
  method Sort(ids: array<Id>)
    requires IsIdl(ids) && ids[0] < 0x8000_0000
    modifies ids
    ensures IsIdl(ids) && Descending(Ids(ids)) && multiset(Ids(ids)) == multiset(old(Ids(ids)))
    ensures RangePerm(old(ids[..]), ids[..], 1, old(ids[0]) + 1)
  {
    hide Sorting, Ordered, Halved, Work, FrontAbove, DescendingIn;
    ghost var s0 := ids[..];
    var n: nat := ids[0];
    var istack := new int[64];
    var ir: int := n;
    var l: nat := 1;
    var jstack: nat := 0;
    ghost var segs: seq<Segment> := [];
    SortingStart(s0, n);
    while true
      invariant StackHolds(istack, jstack, segs) && Sorting(s0, ids[..], n, segs, Segment(l, ir))
      invariant fresh(istack)
      decreases Work(segs + [Segment(l, ir)])
    {
      ghost var s := ids[..];
      ghost var g := Segment(l, ir);
      SortingFront(s0, s, n, segs, g);
      if ir - l < 8 {
        InsertionSort(ids, l, ir);
        SortingFinish(s0, s, ids[..], n, segs, g);
        if jstack == 0 {
          break;
        }
        SortingPop(s0, ids[..], n, segs);
        ir := istack[jstack];
        l := istack[jstack - 1];
        jstack := jstack - 2;
        assert segs == segs[..|segs| - 1] + [Segment(l, ir)];
        segs := segs[..|segs| - 1];
      } else {
        l, ir, jstack, segs := PartitionStep(ids, istack, l, ir, jstack, s0, n, segs);
      }
    }
    SortedResult(s0, ids[..], n);
  }

  lemma SortedResult(s0: seq<Id>, s: seq<Id>, n: nat)
    requires RangePerm(s0, s, 1, n + 1) && Ordered(s, n, [])
    ensures s[0] == s0[0] && Descending(s[1..n + 1]) && multiset(s[1..n + 1]) == multiset(s0[1..n + 1])
  {
    RangeBag(s0, s, 1, n + 1);
    forall p, q | 1 <= p < q <= n ensures s[p] >= s[q] {
      assert !Pending([], p, q);
    }
  }
}
