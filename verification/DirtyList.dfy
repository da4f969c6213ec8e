/** Dirty page lists: counted arrays of page number and page, ascending; and what a nested commit does to them. */
module DirtyList {
  import opened Idl
  import opened Seqs

  /** MDB_ID2: a page number and the page. */
  datatype Entry = Entry(mid: Id, mptr: int)

  predicate Ascending(s: seq<Entry>) {
    forall p, q :: 0 <= p < q < |s| ==> s[p].mid < s[q].mid
  }

  /** Page numbers start above the meta pages; 0 is free to be a sentinel. */
  predicate Numbered(s: seq<Entry>) {
    forall p :: 0 <= p < |s| ==> 0 < s[p].mid < MAX_ID
  }

  predicate IsList(ids: array<Entry>)
    reads ids
  {
    0 < ids.Length <= MAX_ID && ids[0].mid < ids.Length
  }

  function Pages(ids: array<Entry>): (s: seq<Entry>)
    requires IsList(ids)
    reads ids
    ensures |s| == ids[0].mid
  {
    ids[1..ids[0].mid + 1]
  }

  // ---------------------------------------------------------------- search and insert

  /** mdb_mid2l_search: the first position whose page number is >= id. */
  method Search(ids: array<Entry>, id: Id) returns (x: nat)
    requires IsList(ids) && Ascending(Pages(ids))
    ensures 1 <= x <= ids[0].mid + 1
    ensures forall p :: 0 <= p < |Pages(ids)| ==> (Pages(ids)[p].mid < id <==> p < x - 1)
  {
    ghost var s := Pages(ids);
    assert forall p :: 1 <= p <= ids[0].mid ==> ids[p] == s[p - 1];
    var base: nat := 0;
    var cursor: nat := 1;
    var val: int := 0;
    var n: nat := ids[0].mid;
    while 0 < n
      invariant base + n <= ids[0].mid
      invariant forall p :: 0 <= p < base ==> s[p].mid < id
      invariant forall p :: base + n <= p < |s| ==> id < s[p].mid
      invariant val == 0 ==> base == 0 && cursor == 1 && n == ids[0].mid
      invariant val < 0 ==> cursor == base + n + 1
      invariant val > 0 ==> cursor == base
      invariant val < 0 || cursor <= base + 1
    {
      var pivot := n / 2;
      cursor := base + pivot + 1;
      assert ids[cursor] == s[cursor - 1];
      val := if id < ids[cursor].mid then -1 else if id > ids[cursor].mid then 1 else 0;
      if val < 0 {
        n := pivot;
      } else if val > 0 {
        base := cursor;
        n := n - (pivot + 1);
      } else {
        return cursor;
      }
    }
    if val > 0 {
      cursor := cursor + 1;
    }
    x := cursor;
  }

  predicate Listed(s: seq<Entry>, id: Id) {
    exists p :: 0 <= p < |s| && s[p].mid == id
  }

  /** mdb_mid2l_insert: 0, or -1 for a duplicate, or -2 for a full list. */
  method Insert(ids: array<Entry>, e: Entry) returns (rc: int)
    requires IsList(ids) && Ascending(Pages(ids)) && ids.Length > UM_MAX
    modifies ids
    ensures IsList(ids) && Ascending(Pages(ids))
    ensures rc == if Listed(old(Pages(ids)), e.mid) then -1 else if old(ids[0].mid) >= UM_MAX then -2 else 0
    ensures rc != 0 ==> ids[..] == old(ids[..])
    ensures rc == 0 ==> exists x: nat :: x <= |old(Pages(ids))| && Pages(ids) == Inserted(old(Pages(ids)), x, e)
  {
    hide Ascending, Listed, Inserted;
    ghost var s := Pages(ids);
    var x := Search(ids, e.mid);
    assert Pages(ids) == s;
    assert x <= |s| ==> ids[x] == s[x - 1];
    PlaceFacts(s, x - 1, e.mid);
    if x <= ids[0].mid && ids[x].mid == e.mid {
      return -1;
    }
    if ids[0].mid >= UM_MAX {
      return -2;
    }
    InsertedEntries(s, x - 1, e);
    InsertAt(ids, x, e);
    rc := 0;
  }

  /** What the place found by the search tells. */
  lemma PlaceFacts(s: seq<Entry>, x: nat, id: Id)
    requires Ascending(s) && x <= |s| && forall p :: 0 <= p < |s| ==> (s[p].mid < id <==> p < x)
    ensures Listed(s, id) <==> x < |s| && s[x].mid == id
    ensures !Listed(s, id) ==> forall p :: x <= p < |s| ==> id < s[p].mid
  {
  }

  /** Shift the entries from x on up by one. */
  method InsertAt(ids: array<Entry>, x: nat, e: Entry)
    requires IsList(ids) && 1 <= x <= ids[0].mid + 1 < ids.Length
    modifies ids
    ensures IsList(ids) && Pages(ids) == Inserted(old(Pages(ids)), x - 1, e)
  {
    ghost var s := Pages(ids);
    assert forall p :: 1 <= p <= ids[0].mid ==> ids[p] == s[p - 1];
    var n := ids[0].mid + 1;
    ids[0] := ids[0].(mid := n);
    var i := n;
    while i > x
      invariant x <= i <= n && ids[0].mid == n
      invariant forall p :: 1 <= p < i ==> ids[p] == s[p - 1]
      invariant forall p :: i < p <= n ==> ids[p] == s[p - 2]
    {
      ids[i] := ids[i - 1];
      i := i - 1;
    }
    ids[x] := e;
    ghost var t := Inserted(s, x - 1, e);
    forall k | 0 <= k < |t| ensures Pages(ids)[k] == t[k] {
      assert Pages(ids)[k] == ids[k + 1];
      if k > x - 1 { assert s[x - 1..][k - x] == s[k - 1]; }
    }
  }

  lemma InsertedEntries(s: seq<Entry>, x: nat, e: Entry)
    requires Ascending(s) && x <= |s|
    requires (forall p :: 0 <= p < x ==> s[p].mid < e.mid) && forall p :: x <= p < |s| ==> e.mid < s[p].mid
    ensures Ascending(Inserted(s, x, e))
  {
    var t := Inserted(s, x, e);
    assert forall k :: 0 <= k < x ==> t[k] == s[k];
    assert forall k :: x < k < |t| ==> t[k] == s[k - 1];
  }

  // ---------------------------------------------------------------- the union of two dirty lists

  /** Ascending union, from the tail; on equal page numbers the entry of s wins. */
  function Union(d: seq<Entry>, s: seq<Entry>): (u: seq<Entry>)
    ensures |d| <= |u| && |s| <= |u|
    decreases |d| + |s|
  {
    if s == [] then d
    else
      var y := s[|s| - 1];
      if d != [] && y.mid < d[|d| - 1].mid then Union(d[..|d| - 1], s) + [d[|d| - 1]]
      else if d != [] && y.mid == d[|d| - 1].mid then Union(d[..|d| - 1], s[..|s| - 1]) + [y]
      else Union(d, s[..|s| - 1]) + [y]
  }

  lemma InSnoc(s: seq<Entry>, e: Entry)
    requires s != []
    ensures e in s <==> e in s[..|s| - 1] || e == s[|s| - 1]
  {
    assert s == s[..|s| - 1] + [s[|s| - 1]];
  }

  lemma AllBelowLast(s: seq<Entry>, id: Id)
    requires Ascending(s) && s != [] && s[|s| - 1].mid <= id
    ensures forall e :: e in s[..|s| - 1] ==> e.mid < id
  {
  }

  /** Exactly the entries of s, and those of d whose page s does not have. */
  lemma {:induction false} UnionMembers(d: seq<Entry>, s: seq<Entry>, e: Entry)
    requires Ascending(d) && Ascending(s)
    ensures e in Union(d, s) <==> e in s || (e in d && !Listed(s, e.mid))
    decreases |d| + |s|
  {
    if s != [] {
      var y := s[|s| - 1];
      InSnoc(s, e);
      AllBelowLast(s, y.mid);
      ListedSnoc(s, e.mid);
      if d != [] {
        InSnoc(d, e);
        AllBelowLast(d, d[|d| - 1].mid);
      }
      if d != [] && y.mid < d[|d| - 1].mid {
        UnionMembers(d[..|d| - 1], s, e);
        NotListedAbove(s, d[|d| - 1].mid);
      } else if d != [] && y.mid == d[|d| - 1].mid {
        UnionMembers(d[..|d| - 1], s[..|s| - 1], e);
      } else {
        UnionMembers(d, s[..|s| - 1], e);
      }
    } else {
      assert !Listed(s, e.mid);
    }
  }

  lemma NotListedAbove(s: seq<Entry>, id: Id)
    requires Ascending(s) && s != [] && s[|s| - 1].mid < id
    ensures !Listed(s, id)
  {
  }

  lemma ListedSnoc(s: seq<Entry>, id: Id)
    requires s != []
    ensures Listed(s, id) <==> Listed(s[..|s| - 1], id) || s[|s| - 1].mid == id
  {
    if Listed(s, id) {
      var p :| 0 <= p < |s| && s[p].mid == id;
      if p < |s| - 1 { assert s[..|s| - 1][p].mid == id; }
    }
    if Listed(s[..|s| - 1], id) {
      var p :| 0 <= p < |s| - 1 && s[..|s| - 1][p].mid == id;
      assert s[p].mid == id;
    }
  }

  ghost predicate Below(s: seq<Entry>, id: Id) {
    forall p :: 0 <= p < |s| ==> s[p].mid < id
  }

  /** The union is ascending, so a page is listed once. */
  lemma {:induction false} UnionAscending(d: seq<Entry>, s: seq<Entry>)
    requires Ascending(d) && Ascending(s)
    ensures Ascending(Union(d, s))
    decreases |d| + |s|
  {
    if s != [] {
      var d', s' := if d == [] then d else d[..|d| - 1], s[..|s| - 1];
      var top := s[|s| - 1];
      FrontAscending(s);
      if d != [] { FrontAscending(d); }
      hide Ascending, Below;
      if d != [] && top.mid < d[|d| - 1].mid {
        UnionAscending(d', s);
        BelowSnoc(s, d[|d| - 1].mid);
        UnionBelow(d', s, d[|d| - 1].mid);
        SnocAscending(Union(d', s), d[|d| - 1]);
      } else if d != [] && top.mid == d[|d| - 1].mid {
        UnionAscending(d', s');
        UnionBelow(d', s', top.mid);
        SnocAscending(Union(d', s'), top);
      } else {
        UnionAscending(d, s');
        if d != [] { BelowSnoc(d, top.mid); } else { BelowNone(top.mid); }
        UnionBelow(d, s', top.mid);
        SnocAscending(Union(d, s'), top);
      }
    }
  }

  lemma BelowNone(id: Id)
    ensures Below([], id)
  {
  }

  lemma BelowSnoc(s: seq<Entry>, id: Id)
    requires s != [] && Below(s[..|s| - 1], s[|s| - 1].mid) && s[|s| - 1].mid < id
    ensures Below(s, id)
  {
    var f := s[..|s| - 1];
    forall p | 0 <= p < |s| ensures s[p].mid < id {
      if p < |s| - 1 { assert f[p].mid < s[|s| - 1].mid; }
    }
  }

  lemma {:induction false} UnionBelow(d: seq<Entry>, s: seq<Entry>, id: Id)
    requires Below(d, id) && Below(s, id)
    ensures Below(Union(d, s), id)
    decreases |d| + |s|
  {
    if s != [] {
      var d', s' := if d == [] then d else d[..|d| - 1], s[..|s| - 1];
      if d != [] && s[|s| - 1].mid < d[|d| - 1].mid {
        UnionBelow(d', s, id);
      } else if d != [] && s[|s| - 1].mid == d[|d| - 1].mid {
        UnionBelow(d', s', id);
      } else {
        UnionBelow(d, s', id);
      }
    }
  }

  lemma FrontAscending(s: seq<Entry>)
    requires Ascending(s) && s != []
    ensures Ascending(s[..|s| - 1]) && Below(s[..|s| - 1], s[|s| - 1].mid)
  {
  }

  lemma SnocAscending(u: seq<Entry>, e: Entry)
    requires Ascending(u) && Below(u, e.mid)
    ensures Ascending(u + [e])
  {
  }

  // ---------------------------------------------------------------- merging a child's list into its parent's

  /** Number of pages that both lists have. */
  function Common(d: seq<Entry>, s: seq<Entry>): nat
    decreases |d| + |s|
  {
    if d == [] || s == [] then 0
    else if s[|s| - 1].mid < d[|d| - 1].mid then Common(d[..|d| - 1], s)
    else if s[|s| - 1].mid == d[|d| - 1].mid then Common(d[..|d| - 1], s[..|s| - 1]) + 1
    else Common(d, s[..|s| - 1])
  }

  lemma {:induction false} UnionLength(d: seq<Entry>, s: seq<Entry>)
    ensures |Union(d, s)| == |d| + |s| - Common(d, s)
    decreases |d| + |s|
  {
    if s != [] && d != [] {
      if s[|s| - 1].mid < d[|d| - 1].mid {
        UnionLength(d[..|d| - 1], s);
      } else if s[|s| - 1].mid == d[|d| - 1].mid {
        UnionLength(d[..|d| - 1], s[..|s| - 1]);
      } else {
        UnionLength(d, s[..|s| - 1]);
      }
    } else if s != [] {
      UnionLength(d, s[..|s| - 1]);
    }
  }

  /** Pages after the last one of d are in no common part. */
  lemma {:induction false} CommonPrefix(d: seq<Entry>, s: seq<Entry>, y: nat)
    requires y <= |s| && forall p :: y <= p < |s| ==> d == [] || d[|d| - 1].mid < s[p].mid
    ensures Common(d, s) == Common(d, s[..y])
    decreases |s|
  {
    if y < |s| {
      CommonPrefix(d, s[..|s| - 1], y);
      assert s[..|s| - 1][..y] == s[..y];
      if d != [] { assert d[|d| - 1].mid < s[|s| - 1].mid; }
    } else {
      assert s[..y] == s;
    }
  }

  /** The length of the merged list, counted before anything is moved: slot 0 of dst holds page number 0 meanwhile. */
  method MergedLength(dst: array<Entry>, x: nat, src: array<Entry>) returns (len: int)
    requires 0 < dst.Length <= MAX_ID && x < dst.Length && dst[0].mid == 0 && IsList(src) && dst != src
    requires Ascending(dst[1..x + 1]) && Numbered(dst[1..x + 1]) && Ascending(Pages(src)) && Numbered(Pages(src))
    ensures len == |Union(dst[1..x + 1], Pages(src))|
  {
    ghost var d, s := dst[1..x + 1], Pages(src);
    assert forall p :: 1 <= p <= x ==> dst[p] == d[p - 1];
    assert forall p :: 1 <= p <= src[0].mid ==> src[p] == s[p - 1];
    len := x + src[0].mid;
    var found := Search(src, dst[x].mid + 1);
    var y: nat := found - 1;
    forall p | y <= p < |s| ensures d == [] || d[|d| - 1].mid < s[p].mid {
      assert x > 0 ==> dst[x] == d[x - 1];
      assert Pages(src)[p] == s[p];
    }
    hide Union, Common, Ascending, Numbered;
    CommonPrefix(d, s, y);
    UnionLength(d, s);
    var both := CountCommon(dst, d, x, src, s, y);
    len := len - both;
  }

  /** Pages of src[1..y] that dst[1..x] has as well. */
  method CountCommon(dst: array<Entry>, ghost d: seq<Entry>, x: nat, src: array<Entry>, ghost s: seq<Entry>, y0: nat)
    returns (n: nat)
    requires x == |d| < dst.Length && dst[0].mid == 0 && y0 <= |s| < src.Length && Numbered(s)
    requires (forall p :: 1 <= p <= x ==> dst[p] == d[p - 1]) && forall p :: 1 <= p <= |s| ==> src[p] == s[p - 1]
    ensures n == Common(d, s[..y0])
  {
    hide Common;
    n := 0;
    var i: nat, y: nat := x, y0;
    assert d[..x] == d;
    while y > 0 && i > 0
      invariant i <= x && y <= |s|
      invariant n + Common(d[..i], s[..y]) == Common(d, s[..y0])
      decreases y
    {
      var yp := src[y].mid;
      while yp < dst[i].mid
        invariant i <= x
        invariant n + Common(d[..i], s[..y]) == Common(d, s[..y0])
        decreases i
      {
        CommonDown(d, s, i, y);
        i := i - 1;
      }
      CommonStep(d, s, i, y);
      if yp == dst[i].mid {
        i := i - 1;
        n := n + 1;
      }
      y := y - 1;
    }
    NoCommon(d, s, i, y);
  }

  lemma NoCommon(d: seq<Entry>, s: seq<Entry>, i: nat, y: nat)
    requires i <= |d| && y <= |s|
    ensures i == 0 || y == 0 ==> Common(d[..i], s[..y]) == 0
  {
  }

  lemma CommonStep(d: seq<Entry>, s: seq<Entry>, i: nat, y: nat)
    requires i <= |d| && 0 < y <= |s| && (i > 0 ==> d[i - 1].mid <= s[y - 1].mid)
    ensures Common(d[..i], s[..y]) ==
      if i > 0 && d[i - 1].mid == s[y - 1].mid then Common(d[..i - 1], s[..y - 1]) + 1 else Common(d[..i], s[..y - 1])
  {
    assert s[..y][..y - 1] == s[..y - 1];
    if i > 0 { assert d[..i][..i - 1] == d[..i - 1]; }
  }

  lemma UnionEmpty(d: seq<Entry>)
    ensures Union(d, []) == d
  {
  }

  lemma CommonDown(d: seq<Entry>, s: seq<Entry>, x: nat, y: nat)
    requires 0 < x <= |d| && 0 < y <= |s| && s[y - 1].mid < d[x - 1].mid
    ensures Common(d[..x], s[..y]) == Common(d[..x - 1], s[..y])
  {
    assert d[..x][..x - 1] == d[..x - 1];
  }

  lemma UnionDown(d: seq<Entry>, s: seq<Entry>, x: nat, y: nat)
    requires 0 < x <= |d| && 0 < y <= |s| && s[y - 1].mid < d[x - 1].mid
    ensures Union(d[..x], s[..y]) == Union(d[..x - 1], s[..y]) + [d[x - 1]]
  {
    assert d[..x][..x - 1] == d[..x - 1];
  }

  lemma UnionTake(d: seq<Entry>, s: seq<Entry>, x: nat, y: nat)
    requires x <= |d| && 0 < y <= |s| && (x > 0 ==> d[x - 1].mid <= s[y - 1].mid)
    ensures var x' := if x > 0 && d[x - 1].mid == s[y - 1].mid then x - 1 else x;
            Union(d[..x], s[..y]) == Union(d[..x'], s[..y - 1]) + [s[y - 1]]
  {
    assert s[..y][..y - 1] == s[..y - 1];
    if x > 0 { assert d[..x][..x - 1] == d[..x - 1]; }
  }

  /** The parent's copies of pages that the child has too, as the merge meets them: highest page first. */
  function Copies(d: seq<Entry>, s: seq<Entry>): seq<int>
    decreases |d| + |s|
  {
    if d == [] || s == [] then []
    else if s[|s| - 1].mid < d[|d| - 1].mid then Copies(d[..|d| - 1], s)
    else if s[|s| - 1].mid == d[|d| - 1].mid then [d[|d| - 1].mptr] + Copies(d[..|d| - 1], s[..|s| - 1])
    else Copies(d, s[..|s| - 1])
  }

  /** The pages of d whose number s has too, from the last to the first. */
  ghost function Shared(d: seq<Entry>, s: seq<Entry>): seq<int> {
    if d == [] then []
    else (if Listed(s, d[|d| - 1].mid) then [d[|d| - 1].mptr] else []) + Shared(d[..|d| - 1], s)
  }

  lemma {:induction false} SharedBelow(d: seq<Entry>, s: seq<Entry>)
    requires s != [] && forall p :: 0 <= p < |d| ==> d[p].mid < s[|s| - 1].mid
    ensures Shared(d, s) == Shared(d, s[..|s| - 1])
  {
    if d != [] {
      SharedBelow(d[..|d| - 1], s);
      ListedSnoc(s, d[|d| - 1].mid);
    }
  }

  /** Exactly the parent's copies of common pages are freed. */
  lemma {:induction false} CopiesExact(d: seq<Entry>, s: seq<Entry>)
    requires Ascending(d) && Ascending(s)
    ensures Copies(d, s) == Shared(d, s)
    decreases |d| + |s|
  {
    if d != [] && s != [] {
      var x, y := d[|d| - 1], s[|s| - 1];
      if y.mid < x.mid {
        CopiesExact(d[..|d| - 1], s);
        NotListedAbove(s, x.mid);
      } else if y.mid == x.mid {
        CopiesExact(d[..|d| - 1], s[..|s| - 1]);
        SharedBelow(d[..|d| - 1], s);
        assert s[|s| - 1].mid == x.mid;
      } else {
        CopiesExact(d, s[..|s| - 1]);
        SharedBelow(d, s);
      }
    } else if d != [] {
      CopiesExact(d[..|d| - 1], s);
    }
  }

  lemma NoCopies(d: seq<Entry>)
    ensures Copies(d, []) == []
  {
  }

  lemma CopiesDown(d: seq<Entry>, s: seq<Entry>, x: nat, y: nat)
    requires 0 < x <= |d| && 0 < y <= |s| && s[y - 1].mid < d[x - 1].mid
    ensures Copies(d[..x], s[..y]) == Copies(d[..x - 1], s[..y])
  {
    assert d[..x][..x - 1] == d[..x - 1];
  }

  lemma CopiesStep(d: seq<Entry>, s: seq<Entry>, i: nat, y: nat)
    requires i <= |d| && 0 < y <= |s| && (i > 0 ==> d[i - 1].mid <= s[y - 1].mid)
    ensures Copies(d[..i], s[..y]) ==
      if i > 0 && d[i - 1].mid == s[y - 1].mid then [d[i - 1].mptr] + Copies(d[..i - 1], s[..y - 1])
        else Copies(d[..i], s[..y - 1])
  {
    assert s[..y][..y - 1] == s[..y - 1];
    if i > 0 { assert d[..i][..i - 1] == d[..i - 1]; }
  }

  /** State of the merge: d[..x] and s[..y] are still to be merged into dst[1..i], the rest of the union is in place. */
  ghost predicate Merging(dst: array<Entry>, d: seq<Entry>, s: seq<Entry>, x: nat, y: nat, i: nat)
    reads dst
  {
    var u := Union(d, s);
    && x <= |d| && y <= |s| && |u| < dst.Length && i == |Union(d[..x], s[..y])| <= |u| && dst[0].mid == 0
    && (forall p :: 0 <= p < x ==> dst[p + 1] == d[p])
    && Union(d[..x], s[..y]) == u[..i] && forall p :: i <= p < |u| ==> dst[p + 1] == u[p]
  }

  /** The merge itself, backwards and in place; the parent's copies of pages that the child has are freed. */
  method MergeInto(dst: array<Entry>, src: array<Entry>, len: nat) returns (freed: seq<int>)
    requires IsList(dst) && IsList(src) && dst != src
    requires Numbered(Pages(dst)) && Numbered(Pages(src))
    requires len == |Union(Pages(dst), Pages(src))| < dst.Length
    modifies dst
    ensures IsList(dst) && Pages(dst) == Union(old(Pages(dst)), Pages(src))
    ensures freed == Copies(old(Pages(dst)), Pages(src))
  {
    ghost var d, s := Pages(dst), Pages(src);
    hide Union, Copies, Numbered;
    assert forall p :: 0 <= p < |d| ==> dst[p + 1] == d[p];
    assert forall p :: 1 <= p <= |s| ==> src[p] == s[p - 1];
    var x := dst[0].mid;
    dst[0] := dst[0].(mid := 0);
    freed := MergeDown(dst, d, x, src, s, src[0].mid, len);
    dst[0] := dst[0].(mid := len);
    assert Pages(dst) == Union(d, s);
  }

  method MergeDown(dst: array<Entry>, ghost d: seq<Entry>, x0: nat, src: array<Entry>, ghost s: seq<Entry>, y0: nat,
                   len: nat)
    returns (freed: seq<int>)
    requires dst != src && x0 == |d| && y0 == |s| < src.Length && Numbered(d) && Numbered(s) && dst.Length > 0
    requires len == |Union(d, s)| < dst.Length && dst[0].mid == 0 && forall p :: 0 <= p < |d| ==> dst[p + 1] == d[p]
    requires forall p :: 1 <= p <= |s| ==> src[p] == s[p - 1]
    modifies dst
    ensures dst[1..len + 1] == Union(d, s) && freed == Copies(d, s)
  {
    hide Union, Copies, Merging, Numbered;
    var x: nat, y: nat, i: nat := x0, y0, len;
    freed := [];
    MergeStart(dst, d, s);
    while y > 0
      invariant y <= |s| && x <= |d| && Merging(dst, d, s, x, y, i)
      invariant freed + Copies(d[..x], s[..y]) == Copies(d, s)
      decreases y
    {
      assert src[y] == s[y - 1];
      var copy;
      x, i, copy := MergeNext(dst, d, s, x, y, src[y], i);
      freed := freed + copy;
      y := y - 1;
    }
    Merged(dst, d, s, x, i);
  }

  /** One round: parent entries above the child's page move up, its own copy is freed, the child's entry is written. */
  method MergeNext(dst: array<Entry>, ghost d: seq<Entry>, ghost s: seq<Entry>, x0: nat, ghost y: nat, e: Entry,
                   i0: nat)
    returns (x: nat, i: nat, freed: seq<int>)
    requires 0 < y <= |s| && e == s[y - 1] && Numbered(s) && Numbered(d) && x0 <= |d| && Merging(dst, d, s, x0, y, i0)
    modifies dst
    ensures x <= |d| && Merging(dst, d, s, x, y - 1, i)
    ensures Copies(d[..x0], s[..y]) == freed + Copies(d[..x], s[..y - 1])
  {
    hide Union, Copies, Merging, Numbered;
    freed := [];
    x, i := MoveUp(dst, d, s, x0, y, e.mid, i0);
    var same := e.mid == dst[x].mid;
    if same {
      freed := [dst[x].mptr];
      x := x - 1;
    }
    TakeChild(dst, d, s, x, y, e, same, i);
    i := i - 1;
  }

  lemma MergeStart(dst: array<Entry>, d: seq<Entry>, s: seq<Entry>)
    requires |Union(d, s)| < dst.Length && dst[0].mid == 0 && forall p :: 0 <= p < |d| ==> dst[p + 1] == d[p]
    ensures Merging(dst, d, s, |d|, |s|, |Union(d, s)|) && Copies(d[..|d|], s[..|s|]) == Copies(d, s)
  {
    hide Union, Copies;
    assert d[..|d|] == d && s[..|s|] == s && Union(d, s)[..|Union(d, s)|] == Union(d, s);
  }

  /** With the child's list used up, the write position has met the unread parent entries. */
  lemma Merged(dst: array<Entry>, d: seq<Entry>, s: seq<Entry>, x: nat, i: nat)
    requires x <= |d| && Merging(dst, d, s, x, 0, i)
    ensures i == x && |Union(d, s)| < dst.Length && dst[1..|Union(d, s)| + 1] == Union(d, s)
    ensures Copies(d[..x], s[..0]) == []
  {
    hide Union, Copies;
    UnionEmpty(d[..x]);
    NoCopies(d[..x]);
    assert s[..0] == [];
    assert forall p :: 0 <= p < x ==> dst[p + 1] == d[p] == d[..x][p];
  }

  /** Parent entries above the child's next page move up. */
  method MoveUp(dst: array<Entry>, ghost d: seq<Entry>, ghost s: seq<Entry>, x0: nat, ghost y: nat, yp: Id, i0: nat)
    returns (x: nat, i: nat)
    requires 0 < y <= |s| && yp == s[y - 1].mid && Numbered(s) && Numbered(d)
    requires x0 <= |d| && Merging(dst, d, s, x0, y, i0)
    modifies dst
    ensures x <= x0 && x < dst.Length && Merging(dst, d, s, x, y, i)
    ensures Copies(d[..x], s[..y]) == Copies(d[..x0], s[..y])
    ensures dst[x].mid <= yp && (x > 0 ==> dst[x] == d[x - 1]) && (x == 0 ==> dst[x].mid != yp) && dst[0].mid == 0
  {
    hide Union, Copies;
    x, i := x0, i0;
    while yp < dst[x].mid
      invariant x <= x0 && Merging(dst, d, s, x, y, i)
      invariant Copies(d[..x], s[..y]) == Copies(d[..x0], s[..y])
      decreases x
    {
      UnionDown(d, s, x, y);
      CopiesDown(d, s, x, y);
      dst[i] := dst[x];
      i, x := i - 1, x - 1;
    }
  }

  /** The child's entry is written; x already passed the parent's copy if there was one. */
  method TakeChild(dst: array<Entry>, ghost d: seq<Entry>, ghost s: seq<Entry>, ghost x: nat, ghost y: nat, e: Entry,
                   ghost same: bool, i: nat)
    requires 0 < y <= |s| && e == s[y - 1]
    requires var x1 := if same then x + 1 else x;
             && x1 <= |d| && Merging(dst, d, s, x1, y, i) && (x1 > 0 ==> d[x1 - 1].mid <= e.mid)
             && (same <==> x1 > 0 && d[x1 - 1].mid == e.mid)
    modifies dst
    ensures i > 0 && Merging(dst, d, s, x, y - 1, i - 1)
    ensures var x1 := if same then x + 1 else x;
            Copies(d[..x1], s[..y]) == (if same then [d[x].mptr] else []) + Copies(d[..x], s[..y - 1])
  {
    hide Union, Copies;
    UnionTake(d, s, if same then x + 1 else x, y);
    CopiesStep(d, s, if same then x + 1 else x, y);
    dst[i] := e;
  }

  // ---------------------------------------------------------------- squashing the parent's spill list

  /** A spill list holds page numbers shifted left by one; an odd value is a deleted entry. */
  predicate Kept(v: Id, s: seq<Entry>) {
    v % 2 == 0 && !Dirty(v, s)
  }

  predicate Dirty(v: Id, s: seq<Entry>) {
    exists q :: 0 <= q < |s| && 2 * s[q].mid == v
  }

  function Squash(o: seq<Id>, s: seq<Entry>): (r: seq<Id>)
    ensures |r| <= |o|
  {
    if o == [] then [] else Squash(o[..|o| - 1], s) + if Kept(o[|o| - 1], s) then [o[|o| - 1]] else []
  }

  lemma {:induction false} SquashMembers(o: seq<Id>, s: seq<Entry>, v: Id)
    ensures v in Squash(o, s) <==> v in o && Kept(v, s)
  {
    if o != [] {
      SquashMembers(o[..|o| - 1], s, v);
      assert o == o[..|o| - 1] + [o[|o| - 1]];
    }
  }

  lemma {:induction false} SquashDescending(a: seq<Id>, b: seq<Id>, s: seq<Entry>)
    requires StrictlyDescending(a + b)
    ensures StrictlyDescending(a + Squash(b, s))
  {
    if b != [] {
      var f, l := b[..|b| - 1], b[|b| - 1];
      assert a + b == (a + f) + [l];
      PrefixDescending(a + f, [l]);
      SquashDescending(a, f, s);
      if Kept(l, s) {
        var r := a + Squash(f, s);
        forall p | 0 <= p < |r| ensures r[p] > l {
          SquashMembers(f, s, r[p]);
          assert r[p] in a + f && l in [l];
        }
        assert a + Squash(b, s) == r + [l];
      } else {
        assert Squash(b, s) == Squash(f, s);
      }
    }
  }

  lemma PrefixDescending(a: seq<Id>, b: seq<Id>)
    requires StrictlyDescending(a + b)
    ensures StrictlyDescending(a) && forall x, y :: x in a && y in b ==> x > y
  {
    forall p, q | 0 <= p < q < |a| ensures a[p] > a[q] {
      assert (a + b)[p] > (a + b)[q];
    }
    forall x, y | x in a && y in b ensures x > y {
      var p :| 0 <= p < |a| && a[p] == x;
      var q :| 0 <= q < |b| && b[q] == y;
      assert (a + b)[p] > (a + b)[|a| + q];
    }
  }

  /** Marks: an entry of a dirty page is 1, any other is as it was. */
  ghost predicate MarkedAt(v: Id, was: Id, s: seq<Entry>) {
    v == if Dirty(was, s) then 1 else was
  }

  /** The scan is between spill entries x - 1 and x and between dirty pages i - 1 and i. */
  ghost predicate Between(o: seq<Id>, s: seq<Entry>, x: nat, i: nat) {
    && (forall p, q :: 0 <= p < x <= |o| && 0 <= q < i <= |s| ==> 2 * s[q].mid < o[p])
    && forall p, q :: x <= p < |o| && i <= q < |s| ==> o[p] < 2 * s[q].mid
  }

  /** An entry smaller than the next dirty page is passed over. */
  lemma PassOver(o: seq<Id>, s: seq<Entry>, x: nat, i: nat)
    requires 0 < x <= |o| && i < |s| && Ascending(s) && Between(o, s, x, i) && o[x - 1] < 2 * s[i].mid
    ensures Between(o, s, x - 1, i) && !Dirty(o[x - 1], s[..i])
  {
    forall q | i <= q < |s| ensures o[x - 1] < 2 * s[q].mid { assert q > i ==> s[i].mid < s[q].mid; }
  }

  /** Entry x - 1 is the dirty page. */
  lemma Found(o: seq<Id>, s: seq<Entry>, x: nat, i: nat)
    requires 0 < x <= |o| && i < |s| && Ascending(s) && StrictlyDescending(o) && Between(o, s, x, i)
    requires o[x - 1] == 2 * s[i].mid
    ensures Between(o, s, x - 1, i + 1) && Dirty(o[x - 1], s[..i + 1])
  {
    assert s[..i + 1][i] == s[i];
    forall q | i < q < |s| ensures o[x - 1] < 2 * s[q].mid { assert s[i].mid < s[q].mid; }
    forall p | 0 <= p < x - 1 ensures 2 * s[i].mid < o[p] { assert o[p] > o[x - 1]; }
  }

  /** The dirty page is not in the list. */
  lemma NotFound(o: seq<Id>, s: seq<Entry>, x: nat, i: nat)
    requires x <= |o| && i < |s| && StrictlyDescending(o) && Between(o, s, x, i) && (x > 0 ==> o[x - 1] > 2 * s[i].mid)
    ensures Between(o, s, x, i + 1)
  {
    forall p | 0 <= p < x ensures 2 * s[i].mid < o[p] { assert p < x - 1 ==> o[p] > o[x - 1]; }
  }

  /** A dirty page above the entries from x on changes no mark there. */
  lemma MarksStay(o: seq<Id>, s: seq<Entry>, x: nat, i: nat, p: nat, v: Id)
    requires x <= p < |o| && i < |s| && Between(o, s, x, i) && MarkedAt(v, o[p], s[..i])
    ensures MarkedAt(v, o[p], s[..i + 1])
  {
    assert o[p] < 2 * s[i].mid;
    var t, u := s[..i], s[..i + 1];
    if Dirty(o[p], u) {
      var q :| 0 <= q < |u| && 2 * u[q].mid == o[p];
      assert q < i && t[q] == u[q];
    }
    if Dirty(o[p], t) {
      var q :| 0 <= q < |t| && 2 * t[q].mid == o[p];
      assert u[q] == t[q];
    }
  }

  /** Mark the child's dirty pages as deleted; no entry up to y is marked. */
  method MarkDirty(pspill: array<Id>, ghost o: seq<Id>, len: nat, src: array<Entry>, ghost s: seq<Entry>, n: nat)
    returns (y: nat)
    requires len == |o| < pspill.Length && n == |s| < src.Length && StrictlyDescending(o) && Ascending(s)
    requires forall q :: 0 <= q < n ==> src[q + 1] == s[q] && 0 < 2 * s[q].mid < MAX_ID
    requires pspill[0] == MAX_ID && forall p :: 0 <= p < len ==> pspill[p + 1] == o[p]
    modifies pspill
    ensures y <= len && forall p :: y <= p < len ==> MarkedAt(pspill[p + 1], o[p], s)
    ensures forall p :: 0 <= p < y ==> pspill[p + 1] == o[p] && !Dirty(o[p], s)
  {
    hide Dirty, Ascending, StrictlyDescending, Between, MarkedAt;
    var x: nat := len;
    y := len;
    var i := 0;
    assert Between(o, s, x, 0) by { BetweenStart(o, s); }
    while i < n
      invariant i <= n && x <= y <= len && pspill[0] == MAX_ID && Between(o, s, x, i)
      invariant forall p :: 0 <= p < y ==> pspill[p + 1] == o[p]
      invariant forall p :: x <= p < len ==> MarkedAt(pspill[p + 1], o[p], s[..i])
    {
      var pn := 2 * src[i + 1].mid;
      assert pn == 2 * s[i].mid;
      while pn > pspill[x]
        invariant x <= y && Between(o, s, x, i) && pspill[0] == MAX_ID
        invariant forall p :: 0 <= p < y ==> pspill[p + 1] == o[p]
        invariant forall p :: x <= p < len ==> MarkedAt(pspill[p + 1], o[p], s[..i])
        decreases x
      {
        assert pspill[x - 1 + 1] == o[x - 1];
        PassOver(o, s, x, i);
        Unmarked(o[x - 1], s[..i]);
        x := x - 1;
      }
      forall p | x <= p < len ensures MarkedAt(pspill[p + 1], o[p], s[..i + 1]) {
        MarksStay(o, s, x, i, p, pspill[p + 1]);
      }
      if pn == pspill[x] {
        assert x > 0 && pspill[x - 1 + 1] == o[x - 1];
        Found(o, s, x, i);
        Marked(o[x - 1], s[..i + 1]);
        pspill[x] := 1;
        x := x - 1;
        y := x;
      } else {
        assert x > 0 ==> pspill[x - 1 + 1] == o[x - 1];
        NotFound(o, s, x, i);
      }
      i := i + 1;
    }
    assert s[..i] == s;
    Finished(o, s, x);
    forall p | x <= p < y ensures !Dirty(o[p], s) {
      assert MarkedAt(pspill[p + 1], o[p], s);
      SameUnmarked(o[p], s);
    }
  }

  lemma BetweenStart(o: seq<Id>, s: seq<Entry>)
    ensures Between(o, s, |o|, 0)
  {
  }

  lemma Unmarked(v: Id, s: seq<Entry>)
    requires !Dirty(v, s)
    ensures MarkedAt(v, v, s)
  {
  }

  lemma Marked(v: Id, s: seq<Entry>)
    requires Dirty(v, s)
    ensures MarkedAt(1, v, s)
  {
  }

  /** No page shifted left has the value of a mark. */
  lemma SameUnmarked(v: Id, s: seq<Entry>)
    requires MarkedAt(v, v, s)
    ensures !Dirty(v, s)
  {
  }

  lemma Finished(o: seq<Id>, s: seq<Entry>, x: nat)
    requires x <= |o| && Between(o, s, x, |s|)
    ensures forall p :: 0 <= p < x ==> !Dirty(o[p], s)
  {
  }

  lemma SquashNone(o: seq<Id>, s: seq<Entry>, x: nat)
    requires x <= |o|
    ensures o[x..x] == [] && Squash(o[x..x], s) == []
  {
  }

  lemma SquashSnoc(o: seq<Id>, s: seq<Entry>, y0: nat, x: nat)
    requires y0 <= x < |o|
    ensures Squash(o[y0..x + 1], s) == Squash(o[y0..x], s) + if Kept(o[x], s) then [o[x]] else []
  {
    hide Kept;
    var t := o[y0..x + 1];
    assert t[..|t| - 1] == o[y0..x] && t[|t| - 1] == o[x];
  }

  /** An entry is kept when its mark is even. */
  lemma SquashMark(v: Id, was: Id, s: seq<Entry>)
    requires MarkedAt(v, was, s)
    ensures v % 2 == 0 <==> Kept(was, s)
    ensures Kept(was, s) ==> v == was
  {
  }

  /** Close the gaps above y. */
  method DropMarked(pspill: array<Id>, ghost o: seq<Id>, ghost s: seq<Entry>, len: nat, y0: nat) returns (y: nat)
    requires y0 <= len == |o| < pspill.Length && forall p :: y0 <= p < len ==> MarkedAt(pspill[p + 1], o[p], s)
    requires forall p :: 0 <= p < y0 ==> pspill[p + 1] == o[p]
    modifies pspill
    ensures y0 <= y <= len && pspill[1..y + 1] == o[..y0] + Squash(o[y0..], s)
  {
    hide Squash, Kept, MarkedAt;
    y := y0;
    var x := y0;
    SquashNone(o, s, y0);
    while x < len
      invariant y0 <= y <= x <= len
      invariant pspill[1..y + 1] == o[..y0] + Squash(o[y0..x], s)
      invariant forall p :: x <= p < len ==> MarkedAt(pspill[p + 1], o[p], s)
    {
      SquashSnoc(o, s, y0, x);
      SquashMark(pspill[x + 1], o[x], s);
      x := x + 1;
      if pspill[x] % 2 == 0 {
        y := y + 1;
        pspill[y] := pspill[x];
      }
    }
    assert o[y0..x] == o[y0..];
  }

  /** What the marking and the closing of gaps leave. */
  lemma Squashed(o: seq<Id>, s: seq<Entry>, y0: nat)
    requires y0 <= |o| && StrictlyDescending(o) && forall p :: 0 <= p < y0 ==> !Dirty(o[p], s)
    ensures var r := o[..y0] + Squash(o[y0..], s);
            && StrictlyDescending(r) && (forall v :: v in r ==> v in o)
            && forall v: Id :: v % 2 == 0 ==> (v in r <==> v in o && Kept(v, s))
  {
    hide Dirty, StrictlyDescending, Squash;
    var a, b := o[..y0], o[y0..];
    assert o == a + b;
    SquashDescending(a, b, s);
    var c := Squash(b, s);
    forall v: Id | v in a ensures !Dirty(v, s) {
      var p :| 0 <= p < |a| && a[p] == v;
      assert o[p] == v;
    }
    forall v: Id ensures v in a + c ==> v in o {
      SquashMembers(b, s, v);
      if v in a + c { assert v in a || v in c; }
    }
    forall v: Id | v % 2 == 0 ensures v in a + c <==> v in o && Kept(v, s) {
      SquashMembers(b, s, v);
      assert v in a + c <==> v in a || v in c;
      assert v in o <==> v in a || v in b;
    }
  }

  /** Every page the child dirtied leaves the parent's spill list; the other live entries stay, in order. */
  method SquashSpill(pspill: array<Id>, src: array<Entry>)
    requires IsIdl(pspill) && pspill[0] > 0 && StrictlyDescending(Ids(pspill))
    requires IsList(src) && Ascending(Pages(src))
    requires forall q :: 0 <= q < |Pages(src)| ==> 0 < 2 * Pages(src)[q].mid < MAX_ID
    modifies pspill
    ensures IsIdl(pspill) && StrictlyDescending(Ids(pspill))
    ensures forall v :: v in Ids(pspill) ==> v in old(Ids(pspill))
    ensures forall v: Id :: v % 2 == 0 ==> (v in Ids(pspill) <==> v in old(Ids(pspill)) && Kept(v, Pages(src)))
  {
    ghost var o, s := Ids(pspill), Pages(src);
    var len := pspill[0];
    assert forall p :: 0 <= p < len ==> pspill[p + 1] == o[p];
    assert forall q :: 0 <= q < |s| ==> src[q + 1] == s[q];
    pspill[0] := MAX_ID;
    var y := MarkDirty(pspill, o, len, src, s, src[0].mid);
    ghost var y0 := y;
    y := DropMarked(pspill, o, s, len, y);
    pspill[0] := y;
    ghost var r := o[..y0] + Squash(o[y0..], s);
    assert Ids(pspill) == r;
    Squashed(o, s, y0);
  }
}
