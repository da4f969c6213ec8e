/** ID lists: counted arrays, element 0 is the count, elements 1.. are the IDs in descending order. */
module Idl {

  /** MDB_ID is an unsigned 64-bit integer. */
  const MAX_ID: nat := 0xFFFF_FFFF_FFFF_FFFF

  /** MDB_IDL_UM_MAX: the step by which lists grow, and the capacity of a dirty list. */
  const UM_MAX: nat := 0x1_FFFF

  type Id = x: int | 0 <= x <= MAX_ID witness 0

  predicate Descending(s: seq<Id>) {
    forall p, q :: 0 <= p < q < |s| ==> s[p] >= s[q]
  }

  predicate StrictlyDescending(s: seq<Id>) {
    forall p, q :: 0 <= p < q < |s| ==> s[p] > s[q]
  }

  /** The array holds a list: its count fits. */
  predicate IsIdl(ids: array<Id>)
    reads ids
  {
    0 < ids.Length <= MAX_ID && ids[0] < ids.Length
  }

  /** The IDs an array stands for. */
  function Ids(ids: array<Id>): seq<Id>
    requires IsIdl(ids)
    reads ids
  {
    ids[1..ids[0] + 1]
  }

  // ---------------------------------------------------------------- search

  /** Binary search: the first position whose element is <= id, count + 1 when there is none. */
  method Search(ids: array<Id>, id: Id) returns (x: nat)
    requires IsIdl(ids) && Descending(Ids(ids))
    ensures 1 <= x <= ids[0] + 1
    ensures forall p :: 1 <= p <= ids[0] && ids[p] > id ==> p < x
    ensures forall p :: 1 <= p <= ids[0] && ids[p] < id ==> x <= p
    ensures id in Ids(ids) <==> x <= ids[0] && ids[x] == id
    ensures StrictlyDescending(Ids(ids)) ==> forall p :: 1 <= p <= ids[0] ==> (ids[p] > id <==> p < x)
  {
    ghost var s := Ids(ids);
    assert forall p :: 1 <= p <= ids[0] ==> ids[p] == s[p - 1];
    var base: nat := 0;
    var cursor: nat := 1;
    var val: int := 0;
    var n: nat := ids[0];
    while 0 < n
      invariant 0 <= n && 0 <= base && base + n <= ids[0]
      invariant forall p :: 1 <= p <= base ==> ids[p] > id
      invariant forall p :: base + n < p <= ids[0] ==> ids[p] < id
      invariant val == 0 ==> base == 0 && cursor == 1 && n == ids[0]
      invariant val < 0 ==> cursor == base + n + 1
      invariant val > 0 ==> cursor == base
      invariant val < 0 || cursor <= base + 1
    {
      var pivot := n / 2;
      cursor := base + pivot + 1;
      assert ids[cursor] == s[cursor - 1];
      val := if ids[cursor] < id then -1 else if ids[cursor] > id then 1 else 0;
      if val < 0 {
        n := pivot;
      } else if val > 0 {
        base := cursor;
        n := n - (pivot + 1);
      } else {
        assert s[cursor - 1] == id;
        return cursor;
      }
    }
    if val > 0 {
      cursor := cursor + 1;
    }
    x := cursor;
    assert forall p :: 1 <= p <= ids[0] ==> ids[p] != id;
  }

  // ---------------------------------------------------------------- merge

  /** Merge of two lists as the source performs it: from the tail, taking the smaller last element. */
  function Merge(a: seq<Id>, b: seq<Id>): (m: seq<Id>)
    ensures |m| == |a| + |b|
    decreases |a| + |b|
  {
    if b == [] then a
    else if a != [] && a[|a| - 1] < b[|b| - 1] then Merge(a[..|a| - 1], b) + [a[|a| - 1]]
    else Merge(a, b[..|b| - 1]) + [b[|b| - 1]]
  }

  lemma BagSnoc(s: seq<Id>, x: Id)
    ensures multiset(s + [x]) == multiset(s) + multiset{x}
  {
  }

  lemma BagLast(s: seq<Id>)
    requires s != []
    ensures multiset(s) == multiset(s[..|s| - 1]) + multiset{s[|s| - 1]}
  {
    assert s == s[..|s| - 1] + [s[|s| - 1]];
  }

  /** A merge loses and invents nothing. */
  lemma {:induction false} MergeMultiset(a: seq<Id>, b: seq<Id>)
    ensures multiset(Merge(a, b)) == multiset(a) + multiset(b)
    decreases |a| + |b|
  {
    var la, lb := |a| - 1, |b| - 1;
    if b == [] {
    } else if a != [] && a[la] < b[lb] {
      MergeMultiset(a[..la], b);
      BagSnoc(Merge(a[..la], b), a[la]);
      BagLast(a);
    } else {
      MergeMultiset(a, b[..lb]);
      BagSnoc(Merge(a, b[..lb]), b[lb]);
      BagLast(b);
    }
  }

  lemma MergeMembers(a: seq<Id>, b: seq<Id>, x: Id)
    ensures x in Merge(a, b) <==> x in a || x in b
  {
    MergeMultiset(a, b);
    assert x in Merge(a, b) <==> x in multiset(Merge(a, b));
    assert x in a <==> x in multiset(a);
    assert x in b <==> x in multiset(b);
  }

  lemma DescendingSnoc(s: seq<Id>, x: Id)
    requires Descending(s) && forall y :: y in s ==> y >= x
    ensures Descending(s + [x])
  {
    forall p, q | 0 <= p < q < |s + [x]| ensures (s + [x])[p] >= (s + [x])[q] {
      if q == |s| { assert s[p] in s; }
    }
  }

  /** Merging two descending lists gives a descending list. */
  lemma {:induction false} MergeDescending(a: seq<Id>, b: seq<Id>)
    requires Descending(a) && Descending(b)
    ensures Descending(Merge(a, b))
    decreases |a| + |b|
  {
    if b == [] {
    } else {
      var la, lb := |a| - 1, |b| - 1;
      if a != [] && a[la] < b[lb] {
        MergeDescending(a[..la], b);
        forall y | y in Merge(a[..la], b) ensures y >= a[la] { MergeMembers(a[..la], b, y); }
        DescendingSnoc(Merge(a[..la], b), a[la]);
      } else {
        MergeDescending(a, b[..lb]);
        forall y | y in Merge(a, b[..lb]) ensures y >= b[lb] { MergeMembers(a, b[..lb], y); }
        DescendingSnoc(Merge(a, b[..lb]), b[lb]);
      }
    }
  }

  lemma RepeatCount(s: seq<Id>, p: nat, q: nat)
    requires p < q < |s| && s[p] == s[q]
    ensures multiset(s)[s[p]] >= 2
  {
    assert s == s[..p] + [s[p]] + s[p + 1..q] + [s[q]] + s[q + 1..];
  }

  lemma StrictNoRepeat(s: seq<Id>)
    requires Descending(s) && forall x :: multiset(s)[x] <= 1
    ensures StrictlyDescending(s)
  {
    forall p, q | 0 <= p < q < |s| && s[p] == s[q] ensures multiset(s)[s[p]] >= 2 {
      RepeatCount(s, p, q);
    }
  }

  lemma {:induction false} NoRepeatStrict(s: seq<Id>, x: Id)
    requires StrictlyDescending(s)
    ensures multiset(s)[x] <= 1
    decreases |s|
  {
    if s != [] {
      NoRepeatStrict(s[1..], x);
      assert s == [s[0]] + s[1..];
      if s[0] == x { assert x !in s[1..]; }
    }
  }

  /** Merging disjoint strictly descending lists gives a strictly descending list. */
  lemma MergeStrict(a: seq<Id>, b: seq<Id>)
    requires StrictlyDescending(a) && StrictlyDescending(b)
    requires forall x :: x in a ==> x !in b
    ensures StrictlyDescending(Merge(a, b))
  {
    MergeDescending(a, b);
    MergeMultiset(a, b);
    forall x ensures multiset(Merge(a, b))[x] <= 1 {
      NoRepeatStrict(a, x);
      NoRepeatStrict(b, x);
      assert x in multiset(a) <==> x in a;
      assert x in multiset(b) <==> x in b;
    }
    StrictNoRepeat(Merge(a, b));
  }

  /** Merging is done except for the first j and i elements; `tail` is what it has produced. */
  ghost predicate Merging(a: seq<Id>, b: seq<Id>, j: nat, i: nat, tail: seq<Id>) {
    j <= |a| && i <= |b| && Merge(a, b) == Merge(a[..j], b[..i]) + tail
  }

  lemma MergeStepOld(a: seq<Id>, b: seq<Id>, j: nat, i: nat, tail: seq<Id>)
    requires Merging(a, b, j, i, tail) && 0 < j && 0 < i && a[j - 1] < b[i - 1]
    ensures Merging(a, b, j - 1, i, [a[j - 1]] + tail)
  {
    assert a[..j][..j - 1] == a[..j - 1];
  }

  lemma MergeStepNew(a: seq<Id>, b: seq<Id>, j: nat, i: nat, tail: seq<Id>)
    requires Merging(a, b, j, i, tail) && 0 < i && (j == 0 || a[j - 1] >= b[i - 1])
    ensures Merging(a, b, j, i - 1, [b[i - 1]] + tail)
  {
    assert b[..i][..i - 1] == b[..i - 1];
  }

  lemma MergeEnd(a: seq<Id>, b: seq<Id>, j: nat, tail: seq<Id>)
    requires Merging(a, b, j, 0, tail)
    ensures Merge(a, b) == a[..j] + tail
  {
  }

  /** The array during a merge: first j old elements in place, slot 0 the delimiter, `tail` behind k. */
  ghost predicate MergeState(idl: array<Id>, a: seq<Id>, j: nat, k: nat, tail: seq<Id>)
    reads idl
  {
    && j <= |a| && j <= k && k + |tail| < idl.Length
    && idl[0] == MAX_ID
    && (forall p :: 1 <= p <= j ==> idl[p] == a[p - 1])
    && (forall p :: k < p <= k + |tail| ==> idl[p] == tail[p - k - 1])
  }

  /** One round of the merge: move the old elements below b[i - 1] up, then place b[i - 1]. */
  method MergeOne(idl: array<Id>, ghost a: seq<Id>, ghost b: seq<Id>, i: nat, mergeId: Id,
                  j0: nat, k0: nat, ghost tail0: seq<Id>) returns (j: nat, k: nat, ghost tail: seq<Id>)
    requires 0 < i <= |b| && mergeId == b[i - 1] && k0 == i + j0
    requires MergeState(idl, a, j0, k0, tail0) && Merging(a, b, j0, i, tail0)
    modifies idl
    ensures k == i - 1 + j && k + |tail| == k0 + |tail0|
    ensures forall p :: k0 < p < idl.Length ==> idl[p] == old(idl[p])
    ensures MergeState(idl, a, j, k, tail) && Merging(a, b, j, i - 1, tail)
  {
    j, k, tail := j0, k0, tail0;
    var oldId := idl[j];
    while oldId < mergeId
      invariant k == i + j <= k0 && k + |tail| == k0 + |tail0| && oldId == idl[j]
      invariant forall p :: k0 < p < idl.Length ==> idl[p] == old(idl[p])
      invariant MergeState(idl, a, j, k, tail) && Merging(a, b, j, i, tail)
      decreases j
    {
      MergeStepOld(a, b, j, i, tail);
      idl[k] := oldId;
      tail := [a[j - 1]] + tail;
      k := k - 1;
      j := j - 1;
      oldId := idl[j];
    }
    MergeStepNew(a, b, j, i, tail);
    idl[k] := mergeId;
    tail := [b[i - 1]] + tail;
    k := k - 1;
  }

  /** The list whose count is at position ofs of an array. */
  ghost predicate IsIdlAt(a: array<Id>, ofs: nat)
    reads a
  {
    ofs < a.Length <= MAX_ID && ofs + a[ofs] as int < a.Length
  }

  function IdsAt(a: array<Id>, ofs: nat): seq<Id>
    requires IsIdlAt(a, ofs)
    reads a
  {
    a[ofs + 1..ofs + a[ofs] as int + 1]
  }

  /** Merge the list at merge + ofs into `idl` in place, slot 0 of `idl` serving as the scan's delimiter. Both may lie
      in one allocation, when the merged list ends before the other one begins. */
  method XMerge(idl: array<Id>, merge: array<Id>, ofs: nat)
    requires IsIdl(idl) && IsIdlAt(merge, ofs)
    requires idl[0] as int + merge[ofs] as int < if idl == merge then ofs else idl.Length
    modifies idl
    ensures IsIdl(idl) && Ids(idl) == Merge(old(Ids(idl)), old(IdsAt(merge, ofs)))
  {
    hide Merge;
    ghost var a, b := Ids(idl), IdsAt(merge, ofs);
    var i: nat := merge[ofs];
    var j: nat := idl[0];
    var k: nat := i + j;
    var total: nat := k;
    idl[0] := MAX_ID;
    ghost var tail: seq<Id> := [];
    assert a[..j] == a && b[..i] == b;
    while 0 < i
      invariant i <= |b| && k == i + j && k + |tail| == total < idl.Length <= MAX_ID
      invariant forall p :: ofs < p <= ofs + |b| ==> merge[p] == b[p - ofs - 1]
      invariant MergeState(idl, a, j, k, tail) && Merging(a, b, j, i, tail)
    {
      var mergeId := merge[ofs + i];
      j, k, tail := MergeOne(idl, a, b, i, mergeId, j, k, tail);
      i := i - 1;
    }
    idl[0] := total;
    MergeEnd(a, b, j, tail);
    ghost var m := a[..j] + tail;
    assert forall p :: 0 <= p < |m| ==> idl[p + 1] == m[p];
    assert Ids(idl) == m;
  }
}
