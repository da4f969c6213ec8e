/** Splitting a page: where to split, and how the nodes are dealt out to the two pages. */
module Split {
  import opened Seqs

  // ---------------------------------------------------------------- the split point

  /** From the left: the first node with which the left page overflows, k - 1 at the latest. */
  function ScanUp(sizes: seq<nat>, i: nat, psize: nat, k: nat, pmax: nat): nat
    requires i < k <= |sizes|
    decreases k - i
  {
    if psize + sizes[i] > pmax || i == k - 1 then i else ScanUp(sizes, i + 1, psize + sizes[i], k, pmax)
  }

  /** From the right: one past the first node with which the right page overflows, one past k + 1 at the latest. */
  function ScanDown(sizes: seq<nat>, i: nat, psize: nat, k: nat, pmax: nat): nat
    requires k < i < |sizes|
    decreases i
  {
    if psize + sizes[i] > pmax || i == k + 1 then i + 1 else ScanDown(sizes, i - 1, psize + sizes[i], k, pmax)
  }

  /** Is the split point searched by size? `sizes` has the new node at newindx. */
  predicate ScansSizes(sizes: seq<nat>, newindx: nat, pmax: nat)
    requires newindx < |sizes|
  {
    |sizes| - 1 < 20 || sizes[newindx] > pmax / 16 || newindx >= |sizes| - 1
  }

  /** The index that mdb_page_split chooses among all nodes, the new one included: the first of the right page. */
  function SplitPoint(sizes: seq<nat>, newindx: nat, pmax: nat): nat
    requires |sizes| >= 3 && newindx < |sizes|
  {
    var nkeys := |sizes| - 1;
    var mid := (nkeys + 1) / 2;
    if !ScansSizes(sizes, newindx, pmax) then mid
    else if newindx >= nkeys then ScanUp(sizes, 0, 0, nkeys, pmax)
    else if newindx <= mid then ScanUp(sizes, 0, 0, mid + 2, pmax)
    else ScanDown(sizes, nkeys, 0, mid - 1, pmax)
  }

  /** Node sizes in page order, rounded up to even, the new node at its place. */
  function AllSizes(raw: seq<nat>, nsize: nat, newindx: nat): (s: seq<nat>)
    requires newindx <= |raw|
    ensures |s| == |raw| + 1 && s[newindx] == nsize
    ensures forall i :: 0 <= i < newindx ==> s[i] == Even(raw[i])
    ensures forall i :: newindx < i < |s| ==> s[i] == Even(raw[i - 1])
  {
    Inserted(seq(|raw|, p requires 0 <= p < |raw| => Even(raw[p])), newindx, nsize)
  }

  lemma EvenStep(psize: nat, r: nat)
    requires psize % 2 == 0
    ensures Even(psize + r) == psize + Even(r) && Even(psize + r) % 2 == 0
  {
  }

  /** Both scans as one function of the step j. */
  function Scan(sizes: seq<nat>, i: nat, psize: nat, j: int, k: nat, pmax: nat): nat
    requires j == 1 || j == -1
    requires if j == 1 then i < k <= |sizes| else k < i < |sizes|
  {
    if j == 1 then ScanUp(sizes, i, psize, k, pmax) else ScanDown(sizes, i, psize, k, pmax)
  }

  lemma ScanStep(sizes: seq<nat>, i: nat, psize: nat, j: int, k: nat, pmax: nat)
    requires j == 1 || j == -1
    requires if j == 1 then i < k <= |sizes| else k < i < |sizes|
    ensures if psize + sizes[i] > pmax || i == k - j
            then Scan(sizes, i, psize, j, k, pmax) == (if j < 0 then i + 1 else i)
            else Scan(sizes, i, psize, j, k, pmax) == Scan(sizes, i + j, psize + sizes[i], j, k, pmax)
  {
  }

  /** The source's scan: one loop that runs up or down by j over raw node sizes. */
  method ScanLoop(raw: seq<nat>, nsize: nat, newindx: nat, i0: nat, j: int, k: nat, pmax: nat) returns (split: nat)
    requires newindx <= |raw| && nsize % 2 == 0
    requires j == 1 || j == -1
    requires if j == 1 then i0 < k <= |raw| + 1 else k < i0 < |raw| + 1
    ensures split == Scan(AllSizes(raw, nsize, newindx), i0, 0, j, k, pmax)
  {
    hide *;
    ghost var sizes := AllSizes(raw, nsize, newindx);
    ghost var target := Scan(sizes, i0, 0, j, k, pmax);
    var psize: nat := 0;
    var i: nat := i0;
    while true
      invariant psize % 2 == 0 && i < |sizes|
      invariant if j == 1 then i < k else k < i
      invariant target == Scan(sizes, i, psize, j, k, pmax)
      decreases if j == 1 then k - i else i - k
    {
      ScanStep(sizes, i, psize, j, k, pmax);
      if i == newindx {
        psize := psize + nsize;
      } else {
        var r := raw[if i < newindx then i else i - 1];
        EvenStep(psize, r);
        psize := Even(psize + r);
      }
      if psize > pmax || i == k - j {
        return if j < 0 then i + 1 else i;
      }
      i := i + j;
    }
  }

  /** The split point without a scan. A new last node: as many nodes on the left as fit, but two on the right. Many
      nodes and a small new one: the middle. Else, with the new node up to the middle, as many on the left as fit, one
      past the middle at most; with the new node after it, as many on the right as fit, from one past the middle at
      the earliest. */
  ghost predicate IsSplitPoint(sizes: seq<nat>, newindx: nat, pmax: nat, r: nat) {
    newindx < |sizes| &&
    var n, mid := |sizes| - 1, |sizes| / 2;
    if newindx == n then LongestLeft(sizes, r, n - 1, pmax)
    else if n >= 20 && sizes[newindx] <= pmax / 16 then r == mid
    else if newindx <= mid then LongestLeft(sizes, r, mid + 1, pmax)
    else LongestRight(sizes, r, mid + 1, pmax)
  }

  /** The first r nodes fit a page, and r is the largest such number up to `most`. */
  ghost predicate LongestLeft(sizes: seq<nat>, r: nat, most: int, pmax: nat) {
    r <= most <= |sizes| && Sum(sizes[..r]) <= pmax && forall q :: r < q <= most ==> Sum(sizes[..q]) > pmax
  }

  /** The nodes from r on fit a page, and r is the smallest such number from `least` on. */
  ghost predicate LongestRight(sizes: seq<nat>, r: nat, least: nat, pmax: nat) {
    least <= r <= |sizes| && Sum(sizes[r..]) <= pmax && forall q :: least <= q < r ==> Sum(sizes[q..]) > pmax
  }

  lemma SumGrows(s: seq<nat>, p: nat, q: nat)
    requires p <= q <= |s|
    ensures Sum(s[..p]) <= Sum(s[..q]) && Sum(s[q..]) <= Sum(s[p..])
  {
    hide Sum;
    SumCut(s[..q], p);
    assert s[..q][..p] == s[..p];
    SumCut(s[p..], q - p);
    assert s[p..][q - p..] == s[q..];
  }

  /** The scans find it. */
  lemma SplitPointIs(sizes: seq<nat>, newindx: nat, pmax: nat)
    requires |sizes| >= 3 && newindx < |sizes|
    ensures IsSplitPoint(sizes, newindx, pmax, SplitPoint(sizes, newindx, pmax))
  {
    hide Sum, ScanUp, ScanDown;
    var n, mid := |sizes| - 1, |sizes| / 2;
    EmptySum(sizes);
    if ScansSizes(sizes, newindx, pmax) {
      if newindx >= n || newindx <= mid {
        var k := if newindx >= n then n else mid + 2;
        var r := ScanUpResult(sizes, 0, k, pmax);
        forall q | r < q <= k - 1 ensures Sum(sizes[..q]) > pmax { SumGrows(sizes, r + 1, q); }
      } else {
        var r := ScanDownResult(sizes, n, mid - 1, pmax);
        forall q | mid + 1 <= q < r ensures Sum(sizes[q..]) > pmax { SumGrows(sizes, q, r - 1); }
      }
    }
  }

  /** There is only one. */
  lemma SplitPointOne(sizes: seq<nat>, newindx: nat, pmax: nat, q: nat, r: nat)
    requires IsSplitPoint(sizes, newindx, pmax, q) && IsSplitPoint(sizes, newindx, pmax, r)
    ensures q == r
  {
    hide Sum;
  }

  method FindSplit(raw: seq<nat>, nsize: nat, newindx: nat, pmax: nat) returns (split: nat)
    requires |raw| >= 2 && newindx <= |raw| && nsize % 2 == 0
    ensures split == SplitPoint(AllSizes(raw, nsize, newindx), newindx, pmax)
    ensures IsSplitPoint(AllSizes(raw, nsize, newindx), newindx, pmax, split)
  {
    hide AllSizes, ScanUp, ScanDown, IsSplitPoint;
    SplitPointIs(AllSizes(raw, nsize, newindx), newindx, pmax);
    var nkeys := |raw|;
    split := (nkeys + 1) / 2;
    if nkeys < 20 || nsize > pmax / 16 || newindx >= nkeys {
      if newindx <= split || newindx >= nkeys {
        split := ScanLoop(raw, nsize, newindx, 0, 1, if newindx >= nkeys then nkeys else split + 2, pmax);
      } else {
        split := ScanLoop(raw, nsize, newindx, nkeys, -1, split - 1, pmax);
      }
    }
  }

  lemma {:induction false} ScanUpResult(sizes: seq<nat>, i: nat, k: nat, pmax: nat) returns (r: nat)
    requires i < k <= |sizes| && Sum(sizes[..i]) <= pmax
    ensures r == ScanUp(sizes, i, Sum(sizes[..i]), k, pmax)
    ensures i <= r < k && Sum(sizes[..r]) <= pmax
    ensures r < k - 1 ==> Sum(sizes[..r + 1]) > pmax
    decreases k - i
  {
    SumSnoc(sizes, i);
    if Sum(sizes[..i + 1]) > pmax || i == k - 1 {
      r := i;
    } else {
      r := ScanUpResult(sizes, i + 1, k, pmax);
    }
  }

  lemma {:induction false} ScanDownResult(sizes: seq<nat>, i: nat, k: nat, pmax: nat) returns (r: nat)
    requires k < i < |sizes| && Sum(sizes[i + 1..]) <= pmax
    ensures r == ScanDown(sizes, i, Sum(sizes[i + 1..]), k, pmax)
    ensures k + 2 <= r <= i + 1 && Sum(sizes[r..]) <= pmax
    ensures r > k + 2 ==> Sum(sizes[r - 1..]) > pmax
    decreases i
  {
    SumHead(sizes, i);
    if Sum(sizes[i..]) > pmax || i == k + 1 {
      r := i + 1;
    } else {
      r := ScanDownResult(sizes, i - 1, k, pmax);
    }
  }

  /** Each node takes at most limit bytes; the old nodes fit a page, all together do not. */
  ghost predicate SplitNeeded(sizes: seq<nat>, newindx: nat, pmax: nat, limit: nat) {
    && newindx < |sizes|
    && (forall i :: 0 <= i < |sizes| ==> sizes[i] <= limit)
    && Sum(sizes) > pmax && Sum(sizes) - sizes[newindx] <= pmax
  }

  lemma {:induction false} SumBound(s: seq<nat>, limit: nat)
    requires forall i :: 0 <= i < |s| ==> s[i] <= limit
    ensures Sum(s) <= |s| * limit
  {
    if s != [] {
      SumBound(s[1..], limit);
      assert |s| * limit == limit + (|s| - 1) * limit;
    }
  }

  lemma {:induction false} SumMember(s: seq<nat>, i: nat)
    requires i < |s|
    ensures Sum(s) >= s[i]
  {
    SumCut(s, i);
    SumHead(s, i);
  }

  /** Size of a branch node without its key. */
  const BLANK_SIZE: nat := 10

  /** Bytes of the right page: on a branch page its first node goes without its key. */
  function RightLoad(sizes: seq<nat>, sp: nat, branch: bool): int
    requires sp < |sizes|
  {
    Sum(sizes[sp..]) - if branch then sizes[sp] - BLANK_SIZE else 0
  }

  /** What a split point must give: two pages that are not empty and not too full. */
  predicate SplitFits(sizes: seq<nat>, sp: nat, pmax: nat, branch: bool) {
    1 <= sp < |sizes| && Sum(sizes[..sp]) <= pmax && RightLoad(sizes, sp, branch) <= pmax
  }

  lemma UpFits(sizes: seq<nat>, newindx: nat, k: nat, pmax: nat)
    requires |sizes| >= 3 && SplitNeeded(sizes, newindx, pmax, pmax / 2)
    requires 2 <= k <= |sizes| && (k < |sizes| || newindx < k - 1) && (k < |sizes| - 1 ==> newindx < k - 1)
    ensures SplitFits(sizes, ScanUp(sizes, 0, 0, k, pmax), pmax, false)
  {
    hide Sum, ScanUp;
    assert sizes[..0] == [] && Sum(sizes[..0]) == 0 by { EmptySum(sizes); }
    var r := ScanUpResult(sizes, 0, k, pmax);
    UpNonEmpty(sizes, r, k, newindx, pmax);
    SumCut(sizes, r);
    if r < k - 1 {
      SumSnoc(sizes, r);
    } else if newindx < r {
      TailWithoutNew(sizes, r, newindx);
    } else {
      LastTwo(sizes, r);
    }
  }

  lemma EmptySum(sizes: seq<nat>)
    ensures sizes[..0] == [] && sizes[|sizes|..] == [] && Sum([]) == 0
  {
  }

  lemma LastTwo(sizes: seq<nat>, r: nat)
    requires r + 2 == |sizes|
    ensures Sum(sizes[r..]) == sizes[r] + sizes[r + 1]
  {
    SumHead(sizes, r);
    SumHead(sizes, r + 1);
    assert sizes[r + 2..] == [];
  }

  lemma DownFits(sizes: seq<nat>, newindx: nat, k: nat, pmax: nat)
    requires |sizes| >= 3 && SplitNeeded(sizes, newindx, pmax, pmax / 2)
    requires k + 2 <= newindx < |sizes| - 1
    ensures SplitFits(sizes, ScanDown(sizes, |sizes| - 1, 0, k, pmax), pmax, false)
  {
    hide Sum, ScanDown;
    assert sizes[|sizes|..] == [] && Sum(sizes[|sizes|..]) == 0 by { EmptySum(sizes); }
    var r := ScanDownResult(sizes, |sizes| - 1, k, pmax);
    DownNonEmpty(sizes, r, pmax);
    SumCut(sizes, r);
    if r == k + 2 {
      HeadWithoutNew(sizes, r, newindx);
    } else {
      SumCut(sizes, r - 1);
      SumHead(sizes, r - 1);
    }
  }

  /** On the size-scan path no node larger than half a page is enough: both pages are non-empty and neither overflows.
      */
  lemma ScannedSplitFits(sizes: seq<nat>, newindx: nat, pmax: nat, branch: bool)
    requires |sizes| >= 3 && SplitNeeded(sizes, newindx, pmax, pmax / 2) && ScansSizes(sizes, newindx, pmax)
    requires branch ==> forall i :: 0 <= i < |sizes| ==> sizes[i] >= BLANK_SIZE
    ensures SplitFits(sizes, SplitPoint(sizes, newindx, pmax), pmax, branch)
  {
    hide Sum, ScanUp, ScanDown;
    var nkeys := |sizes| - 1;
    var mid := (nkeys + 1) / 2;
    if newindx >= nkeys {
      UpFits(sizes, newindx, nkeys, pmax);
    } else if newindx <= mid {
      UpFits(sizes, newindx, mid + 2, pmax);
    } else {
      DownFits(sizes, newindx, mid - 1, pmax);
    }
  }

  /** Bytes of the half that takes the new node when the page is cut in the middle, from the page before the put. */
  function HalfLoad(page: seq<nat>, nsize: nat, newindx: nat, branch: bool): int {
    var mid := (|page| + 1) / 2;
    if newindx < mid && mid >= 1 then Sum(page[..mid - 1]) + nsize
    else if mid < |page| then
      Sum(page[mid..]) + nsize - if branch then (if newindx == mid then nsize else page[mid]) - BLANK_SIZE else 0
    else 0
  }

  lemma TakeInserted(s: seq<nat>, i: nat, x: nat, n: nat)
    requires i <= |s| && n <= |s| + 1
    ensures Sum(Inserted(s, i, x)[..n]) == if i < n then Sum(s[..n - 1]) + x else Sum(s[..n])
  {
    hide Sum;
    var t := Inserted(s, i, x)[..n];
    if i < n {
      assert t == Inserted(s[..n - 1], i, x);
      InsertedSum(s[..n - 1], i, x);
    } else {
      assert t == s[..n];
    }
  }

  lemma DropInserted(s: seq<nat>, i: nat, x: nat, n: nat)
    requires i <= |s| && n <= |s| + 1
    ensures Sum(Inserted(s, i, x)[n..]) == if i < n then Sum(s[n - 1..]) else Sum(s[n..]) + x
  {
    hide Sum;
    var t := Inserted(s, i, x)[n..];
    if i < n {
      assert t == s[n - 1..];
    } else {
      assert t == Inserted(s[n..], i - n, x);
      InsertedSum(s[n..], i - n, x);
    }
  }

  /** Without the scan the middle is taken blindly. It fits exactly when the nodes of the half that takes the new node
      leave room for it, which the page before the put tells. */
  lemma MiddleSplitFits(page: seq<nat>, nsize: nat, newindx: nat, pmax: nat, branch: bool)
    requires |page| >= 20 && newindx <= |page| && Sum(page) <= pmax
    requires !ScansSizes(Inserted(page, newindx, nsize), newindx, pmax)
    requires branch ==> nsize >= BLANK_SIZE && forall i :: 0 <= i < |page| ==> page[i] >= BLANK_SIZE
    ensures var all := Inserted(page, newindx, nsize);
            SplitFits(all, SplitPoint(all, newindx, pmax), pmax, branch) <==>
              HalfLoad(page, nsize, newindx, branch) <= pmax
  {
    hide Sum, Inserted, SplitFits, HalfLoad;
    var mid := (|page| + 1) / 2;
    assert SplitPoint(Inserted(page, newindx, nsize), newindx, pmax) == mid;
    if newindx < mid {
      MiddleOnLeft(page, nsize, newindx, mid, pmax, branch);
    } else {
      MiddleOnRight(page, nsize, newindx, mid, pmax, branch);
    }
  }

  lemma MiddleOnLeft(page: seq<nat>, nsize: nat, newindx: nat, mid: nat, pmax: nat, branch: bool)
    requires newindx < mid == (|page| + 1) / 2 && mid >= 2 && Sum(page) <= pmax
    requires branch ==> forall i :: 0 <= i < |page| ==> page[i] >= BLANK_SIZE
    ensures SplitFits(Inserted(page, newindx, nsize), mid, pmax, branch) <==>
              HalfLoad(page, nsize, newindx, branch) <= pmax
  {
    hide Sum, Inserted;
    TakeInserted(page, newindx, nsize, mid);
    DropInserted(page, newindx, nsize, mid);
    SumCut(page, mid - 1);
    AtInserted(page, newindx, nsize, mid);
  }

  lemma MiddleOnRight(page: seq<nat>, nsize: nat, newindx: nat, mid: nat, pmax: nat, branch: bool)
    requires mid <= newindx <= |page| && mid == (|page| + 1) / 2 < |page| && mid >= 2 && Sum(page) <= pmax
    requires branch ==> nsize >= BLANK_SIZE && forall i :: 0 <= i < |page| ==> page[i] >= BLANK_SIZE
    ensures SplitFits(Inserted(page, newindx, nsize), mid, pmax, branch) <==>
              HalfLoad(page, nsize, newindx, branch) <= pmax
  {
    hide Sum, Inserted;
    TakeInserted(page, newindx, nsize, mid);
    DropInserted(page, newindx, nsize, mid);
    SumCut(page, mid);
    AtInserted(page, newindx, nsize, mid);
  }

  lemma AtInserted(s: seq<nat>, i: nat, x: nat, n: nat)
    requires i <= |s| && n <= |s|
    ensures Inserted(s, i, x)[n] == if i > n then s[n] else if i == n then x else s[n - 1]
  {
  }

  lemma UpNonEmpty(sizes: seq<nat>, r: nat, k: nat, newindx: nat, pmax: nat)
    requires |sizes| >= 3 && SplitNeeded(sizes, newindx, pmax, pmax / 2)
    requires r < k <= |sizes| && k >= 2 && (r < k - 1 ==> Sum(sizes[..r + 1]) > pmax)
    ensures r >= 1
  {
    if r == 0 {
      SumSnoc(sizes, 0);
    }
  }

  lemma DownNonEmpty(sizes: seq<nat>, r: nat, pmax: nat)
    requires |sizes| >= 3 && (forall i :: 0 <= i < |sizes| ==> sizes[i] <= pmax / 2)
    requires 1 <= r <= |sizes| && (r == |sizes| ==> Sum(sizes[r - 1..]) > pmax)
    ensures r < |sizes|
  {
    if r == |sizes| {
      SumHead(sizes, r - 1);
    }
  }

  /** Everything right of the new node is old. */
  lemma TailWithoutNew(sizes: seq<nat>, r: nat, newindx: nat)
    requires newindx < r <= |sizes|
    ensures Sum(sizes[r..]) <= Sum(sizes) - sizes[newindx]
  {
    SumCut(sizes, r);
    SumMember(sizes[..r], newindx);
  }

  /** Everything left of the new node is old. */
  lemma HeadWithoutNew(sizes: seq<nat>, r: nat, newindx: nat)
    requires r <= newindx < |sizes|
    ensures Sum(sizes[..r]) <= Sum(sizes) - sizes[newindx]
  {
    SumCut(sizes, r);
    SumMember(sizes[r..], newindx - r);
  }

  function Repeat(x: nat, n: nat): (s: seq<nat>)
    ensures |s| == n && forall i :: 0 <= i < n ==> s[i] == x
  {
    if n == 0 then [] else [x] + Repeat(x, n - 1)
  }

  lemma {:induction false} RepeatSum(x: nat, n: nat)
    ensures Sum(Repeat(x, n)) == n * x
  {
    if n > 0 {
      RepeatSum(x, n - 1);
      assert Repeat(x, n)[1..] == Repeat(x, n - 1);
      assert n * x == x + (n - 1) * x;
    }
  }

  /** The blind middle can overflow: nine nodes of 438 bytes and a new one of 254 on the left, eleven of 12 on the
      right. */
  lemma MiddleSplitCanOverflow()
    ensures exists sizes: seq<nat> ::
              && |sizes| == 21 && SplitNeeded(sizes, 9, 4080, 2040) && !ScansSizes(sizes, 9, 4080)
              && Sum(sizes[..SplitPoint(sizes, 9, 4080)]) > 4080
  {
    var left := Repeat(438, 9);
    var right := Repeat(12, 11);
    var sizes := left + [254] + right;
    RepeatSum(438, 9);
    RepeatSum(12, 11);
    SumConcat(left, [254]);
    SumConcat(left + [254], right);
    assert Sum([254]) == 254;
    assert sizes[..10] == left + [254];
    assert SplitNeeded(sizes, 9, 4080, 2040) && SplitPoint(sizes, 9, 4080) == 10;
  }

  lemma ManyNodes(sizes: seq<nat>, pmax: nat)
    requires (forall i :: 0 <= i < |sizes| ==> sizes[i] <= pmax / 4) && Sum(sizes) > pmax
    ensures |sizes| >= 5
  {
    var q := pmax / 4;
    SumBound(sizes, q);
    if |sizes| <= 4 {
      MulLe(|sizes|, 4, q);
    }
  }

  /** When nodes take at most a quarter page, a split leaves at least two nodes on each side, with or without the
      scan. */
  lemma TwoOnEachSide(sizes: seq<nat>, newindx: nat, pmax: nat)
    requires |sizes| >= 3 && SplitNeeded(sizes, newindx, pmax, pmax / 4)
    ensures 2 <= SplitPoint(sizes, newindx, pmax) <= |sizes| - 2
  {
    hide Sum, ScanUp, ScanDown;
    ManyNodes(sizes, pmax);
    var nkeys := |sizes| - 1;
    var mid := (nkeys + 1) / 2;
    EmptySum(sizes);
    if ScansSizes(sizes, newindx, pmax) {
      if newindx >= nkeys || newindx <= mid {
        var k := if newindx >= nkeys then nkeys else mid + 2;
        var r := ScanUpResult(sizes, 0, k, pmax);
        if r < k - 1 { ManyNodes(sizes[..r + 1], pmax); }
      } else {
        var r := ScanDownResult(sizes, nkeys, mid - 1, pmax);
        if r > mid + 1 { ManyNodes(sizes[r - 1..], pmax); }
      }
    }
  }

  /** With nodes of half a page, which the key limit excludes, a page of two splits into two and one: a branch
      page would be left with a single child. */
  lemma HalfPageNodesLeaveOne()
    ensures SplitNeeded([2040, 2040, 2040], 0, 4080, 2040) && SplitPoint([2040, 2040, 2040], 0, 4080) == 2
  {
    var s: seq<nat> := [2040, 2040, 2040];
    assert s[1..] == [2040, 2040] && s[1..][1..] == [2040];
    assert Sum(s) == 6120;
    assert ScanUp(s, 2, 4080, 3, 4080) == 2;
    assert ScanUp(s, 1, 2040, 3, 4080) == 2;
  }

  // ---------------------------------------------------------------- dealing out the nodes

  /** What the pointer table of the temporary page points at: a node of the old page, or one just added. */
  datatype Ptr = Old(i: nat) | Added(i: nat)

  /** mdb_page_split's node loop: it starts with the right page and wraps around to the temporary left page, whose
      pointer table it is still reading while it overwrites it. Nodes are as they were, a branch page's first key
      not yet blanked; sep is the node whose key the separator is taken from. */
  method Distribute<N>(nodes: seq<N>, newNode: N, newindx: nat, split: nat)
    returns (left: seq<N>, sep: N, right: seq<N>)
    requires newindx <= |nodes| && 1 <= split <= |nodes|
    ensures left + right == Inserted(nodes, newindx, newNode)
    ensures |left| == split && sep == right[0]
  {
    var ptrs := new Ptr[|nodes| + 1](_ => Old(0));
    Prepare(ptrs, |nodes|, newindx);
    sep := NodeOf(nodes, newNode, newindx, ptrs, split);
    hide Inserted;
    var body;
    right, body := Deal(nodes, newNode, newindx, split, ptrs);
    left := FromPtrs(ptrs, split, body);
  }

  /** The loop: the nodes of the right page and those written to the temporary page. */
  method Deal<N>(nodes: seq<N>, newNode: N, newindx: nat, split: nat, ptrs: array<Ptr>)
    returns (right: seq<N>, body: seq<N>)
    requires newindx <= |nodes| && 1 <= split <= |nodes| && ptrs.Length == |nodes| + 1
    requires forall k :: 0 <= k <= |nodes| && k != newindx ==> ptrs[k] == Old(if k < newindx then k else k - 1)
    modifies ptrs
    ensures var all := Inserted(nodes, newindx, newNode); right == all[split..] && body == all[..split]
    ensures forall k :: 0 <= k < split ==> ptrs[k] == Added(k)
  {
    hide Inserted;
    var nkeys := |nodes|;
    ghost var all := Inserted(nodes, newindx, newNode);
    right, body := [], [];
    var onRight := true;
    var i: nat, j: nat := split, 0;
    while true
      invariant if onRight then split <= i <= nkeys && j == i - split && right == all[split..i] && body == []
                else 0 <= i < split && j == i && right == all[split..] && body == all[..i]
      invariant forall k :: (if onRight then 0 else i) <= k <= nkeys && k != newindx ==>
        ptrs[k] == Old(if k < newindx then k else k - 1)
      invariant forall k :: 0 <= k < |body| ==> ptrs[k] == Added(k)
      decreases onRight, nkeys - i
    {
      var n := NodeOf(nodes, newNode, newindx, ptrs, i);
      if onRight {
        right := right + [n];
      } else {
        ptrs[j] := Added(|body|);
        body := body + [n];
      }
      if i == nkeys {
        i, j := 0, 0;
        onRight := false;
      } else {
        i, j := i + 1, j + 1;
      }
      if i == split {
        break;
      }
    }
  }

  /** Node i of all nodes: the new one, or the one its pointer names. */
  method NodeOf<N>(nodes: seq<N>, newNode: N, newindx: nat, ptrs: array<Ptr>, i: nat) returns (n: N)
    requires newindx <= |nodes| && i <= |nodes| < ptrs.Length
    requires i != newindx ==> ptrs[i] == Old(if i < newindx then i else i - 1)
    ensures n == Inserted(nodes, newindx, newNode)[i]
  {
    n := if i == newindx then newNode else nodes[ptrs[i].i];
  }

  /** The table before the loop: the old pointers with a gap at newindx. */
  method Prepare(ptrs: array<Ptr>, nkeys: nat, newindx: nat)
    requires ptrs.Length == nkeys + 1 && newindx <= nkeys
    modifies ptrs
    ensures forall k :: 0 <= k <= nkeys && k != newindx ==> ptrs[k] == Old(if k < newindx then k else k - 1)
  {
    var i, j := 0, 0;
    while i < nkeys
      invariant 0 <= i <= nkeys && j == (if i <= newindx then i else i + 1)
      invariant forall k :: 0 <= k < j && k != newindx ==> ptrs[k] == Old(if k < newindx then k else k - 1)
    {
      if i == newindx {
        j := j + 1;
      }
      ptrs[j] := Old(i);
      j := j + 1;
      i := i + 1;
    }
  }

  /** The finished left page, read through its pointer table. */
  method FromPtrs<N>(ptrs: array<Ptr>, n: nat, body: seq<N>) returns (page: seq<N>)
    requires n == |body| <= ptrs.Length && forall k :: 0 <= k < n ==> ptrs[k] == Added(k)
    ensures page == body
  {
    page := seq(n, k requires 0 <= k < n && ptrs[k].Added? && ptrs[k].i < |body| reads ptrs => body[ptrs[k].i]);
  }
}
