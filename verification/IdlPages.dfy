/** Page-number runs in descending ID lists: allocation of a run, return of an overflow run, growth. */
module IdlPages {
  import opened Idl

  /** The pages pg .. pg + n - 1 in list order, highest first. */
  function Run(pg: nat, n: nat): (r: seq<Id>)
    requires pg + n <= MAX_ID
    ensures |r| == n
    ensures forall k :: 0 <= k < n ==> r[k] == pg + n - 1 - k
  {
    if n == 0 then [] else [pg + n - 1] + Run(pg, n - 1)
  }

  // ---------------------------------------------------------------- contiguous allocation

  /** num consecutive pages end at 1-based position i. */
  ghost predicate RunEndsAt(s: seq<Id>, i: nat, num: nat) {
    1 <= num <= i <= |s| && forall p :: i - num <= p < i ==> s[p] == s[i - 1] + (i - 1 - p)
  }

  lemma {:induction false} StrictGap(s: seq<Id>, p: nat, q: nat)
    requires StrictlyDescending(s) && p <= q < |s|
    ensures s[p] >= s[q] + (q - p)
    decreases q - p
  {
    if p < q { StrictGap(s, p + 1, q); }
  }

  /** On a strictly descending list one comparison decides whether a run ends at i. */
  lemma OneTestSuffices(s: seq<Id>, i: nat, num: nat)
    requires StrictlyDescending(s) && 1 <= num <= i <= |s|
    ensures s[i - num] == s[i - 1] + (num - 1) <==> RunEndsAt(s, i, num)
  {
    if s[i - num] == s[i - 1] + (num - 1) {
      forall p | i - num <= p < i ensures s[p] == s[i - 1] + (i - 1 - p) {
        StrictGap(s, p, i - 1);
        StrictGap(s, i - num, p);
      }
    }
  }

  /** Seek num consecutive pages from the tail; i == 0 when there is no such run. */
  method FindRun(mop: array<Id>, num: nat) returns (i: nat)
    requires IsIdl(mop) && StrictlyDescending(Ids(mop)) && num >= 1
    ensures i != 0 ==> RunEndsAt(Ids(mop), i, num)
    ensures forall e :: i < e <= mop[0] ==> !RunEndsAt(Ids(mop), e, num)
  {
    ghost var s := Ids(mop);
    var n2: nat := num - 1;
    i := mop[0];
    while i > n2
      invariant i <= mop[0]
      invariant forall e :: i < e <= mop[0] ==> !RunEndsAt(s, e, num)
    {
      var pgno := mop[i];
      OneTestSuffices(s, i, num);
      if mop[i - n2] == pgno + n2 {
        return;
      }
      i := i - 1;
    }
    i := 0;
  }

  /** The list without the num IDs ending at 1-based position i. */
  function WithoutRun(s: seq<Id>, i: nat, num: nat): seq<Id>
    requires num <= i <= |s|
  {
    s[..i - num] + s[i..]
  }

  /** Take a run out of the list: shorten it and move the stragglers down. */
  method RemoveRun(mop: array<Id>, i0: nat, num: nat)
    requires IsIdl(mop) && 1 <= num <= i0 <= mop[0]
    modifies mop
    ensures IsIdl(mop) && Ids(mop) == WithoutRun(old(Ids(mop)), i0, num)
  {
    ghost var s := Ids(mop);
    var i := i0;
    var mopLen: nat := mop[0] - num;
    mop[0] := mopLen;
    var j: nat := i - num;
    while j < mopLen
      invariant i0 - num <= j <= mopLen && i == j + num && mop[0] == mopLen
      invariant forall k :: 1 <= k <= i0 - num ==> mop[k] == s[k - 1]
      invariant forall k :: i0 - num < k <= j ==> mop[k] == s[k - 1 + num]
      invariant forall k :: i < k <= |s| ==> mop[k] == s[k - 1]
    {
      j := j + 1;
      i := i + 1;
      mop[j] := mop[i];
    }
    assert Ids(mop) == WithoutRun(s, i0, num);
  }

  /** Exactly the allocated run leaves the list, and the rest stays strictly descending. */
  lemma WithoutRunExact(s: seq<Id>, i: nat, num: nat)
    requires StrictlyDescending(s) && 1 <= num <= i && RunEndsAt(s, i, num)
    ensures StrictlyDescending(WithoutRun(s, i, num))
    ensures forall x: Id :: x in WithoutRun(s, i, num) <==> x in s && !(s[i - 1] <= x < s[i - 1] + num)
    ensures forall x: Id :: s[i - 1] <= x < s[i - 1] + num ==> x in s
  {
    var t := WithoutRun(s, i, num);
    var pg := s[i - 1];
    forall x: Id | pg <= x < pg + num ensures x in s {
      assert s[i - 1 - (x - pg)] == x;
    }
    forall x: Id ensures x in t <==> x in s && !(pg <= x < pg + num) {
      WithoutRunMember(s, i, num, x);
    }
  }

  lemma WithoutRunMember(s: seq<Id>, i: nat, num: nat, x: Id)
    requires StrictlyDescending(s) && 1 <= num <= i && RunEndsAt(s, i, num)
    ensures x in WithoutRun(s, i, num) <==> x in s && !(s[i - 1] <= x < s[i - 1] + num)
  {
    var t, pg := WithoutRun(s, i, num), s[i - 1];
    RunBelow(s, i, num);
    hide StrictlyDescending, RunEndsAt;
    if x in t {
      var k :| 0 <= k < |t| && t[k] == x;
      var q := if k < i - num then k else k + num;
      assert x == s[q];
    }
    if x in s && !(pg <= x < pg + num) {
      var k :| 0 <= k < |s| && s[k] == x;
      assert x == t[if k < i - num then k else k - num];
    }
  }

  /** An ID lies in the run's range exactly when it stands in the run. */
  lemma RunBelow(s: seq<Id>, i: nat, num: nat)
    requires StrictlyDescending(s) && 1 <= num <= i && RunEndsAt(s, i, num)
    ensures forall k :: 0 <= k < |s| ==> (s[i - 1] <= s[k] < s[i - 1] + num <==> i - num <= k < i)
  {
    assert s[i - num] == s[i - 1] + (num - 1);
  }

  // ---------------------------------------------------------------- returning an overflow run

  /** Position where a run starting at page pg belongs: the number of IDs >= pg. */
  function CountAbove(s: seq<Id>, pg: nat): (c: nat)
    ensures c <= |s|
    ensures c < |s| ==> s[c] < pg
    ensures forall k :: 0 <= k < c ==> s[k] >= pg
  {
    if s == [] || s[0] < pg then 0
    else
      var c := CountAbove(s[1..], pg);
      assert forall k :: 1 <= k < c + 1 ==> s[k] == s[1..][k - 1];
      c + 1
  }

  /** First loop: move the IDs below pg up by ovpages; i is where the run goes. */
  method OpenGap(mop: array<Id>, pg: nat, ovpages: nat) returns (i: nat)
    requires IsIdl(mop) && Descending(Ids(mop)) && mop[0] as int + ovpages < mop.Length
    modifies mop
    ensures mop[0] == old(mop[0]) && i == CountAbove(old(Ids(mop)), pg)
    ensures forall k :: 1 <= k <= i ==> mop[k] == old(mop[k])
    ensures forall k :: i + ovpages < k <= mop[0] as int + ovpages ==> mop[k] == old(Ids(mop))[k - ovpages - 1]
  {
    hide CountAbove;
    ghost var s := Ids(mop);
    i := mop[0];
    while i != 0 && mop[i] < pg
      invariant CountAbove(s, pg) <= i <= mop[0] == old(mop[0])
      invariant forall k :: 0 <= k <= i ==> mop[k] == old(mop[k])
      invariant forall k :: i + ovpages < k <= mop[0] as int + ovpages ==> mop[k] == s[k - ovpages - 1]
    {
      mop[i + ovpages] := mop[i];
      i := i - 1;
    }
    assert i > 0 ==> s[i - 1] == old(mop[i]);
  }

  /** Second loop: write the run into the gap (i, i + ovpages], highest page first. */
  method FillGap(mop: array<Id>, pg0: nat, i: nat, ovpages: nat)
    requires i + ovpages < mop.Length && pg0 + ovpages <= MAX_ID
    modifies mop
    ensures forall k :: 0 <= k < mop.Length && !(i < k <= i + ovpages) ==> mop[k] == old(mop[k])
    ensures forall k :: i < k <= i + ovpages ==> mop[k] == pg0 + (i + ovpages - k)
  {
    var pg := pg0;
    var j: nat := i + ovpages;
    while j > i
      invariant i <= j <= i + ovpages && pg == pg0 + (i + ovpages - j)
      invariant forall k :: 0 <= k < mop.Length && !(j < k <= i + ovpages) ==> mop[k] == old(mop[k])
      invariant forall k :: j < k <= i + ovpages ==> mop[k] == pg0 + (i + ovpages - k)
    {
      mop[j] := pg;
      j := j - 1;
      pg := pg + 1;
    }
  }

  lemma GapFilled(s: seq<Id>, t: seq<Id>, pg: nat, n: nat, i: nat)
    requires pg + n <= MAX_ID && i == CountAbove(s, pg) && |t| == |s| + n
    requires forall k :: 0 <= k < i ==> t[k] == s[k]
    requires forall k :: i <= k < i + n ==> t[k] == pg + (i + n - 1 - k)
    requires forall k :: i + n <= k < |t| ==> t[k] == s[k - n]
    ensures t == InsertedRun(s, pg, n)
  {
  }

  /** Put the pages pg .. pg + ovpages - 1 back into the list, in place. */
  method InsertRun(mop: array<Id>, pg: nat, ovpages: nat)
    requires IsIdl(mop) && Descending(Ids(mop)) && mop[0] as int + ovpages < mop.Length
    requires pg + ovpages <= MAX_ID
    modifies mop
    ensures IsIdl(mop) && Ids(mop) == InsertedRun(old(Ids(mop)), pg, ovpages)
  {
    hide CountAbove, Run, InsertedRun;
    ghost var s := Ids(mop);
    var len: nat := mop[0];
    var i := OpenGap(mop, pg, ovpages);
    FillGap(mop, pg, i, ovpages);
    mop[0] := len + ovpages;
    GapFilled(s, Ids(mop), pg, ovpages, i);
  }

  /** The list with the run put where the in-place insertion puts it. */
  function InsertedRun(s: seq<Id>, pg: nat, n: nat): (t: seq<Id>)
    requires pg + n <= MAX_ID
    ensures |t| == |s| + n
  {
    var c := CountAbove(s, pg);
    s[..c] + Run(pg, n) + s[c..]
  }

  lemma HeadIsMax(s: seq<Id>, t: seq<Id>)
    requires Descending(s) && Descending(t) && multiset(s) == multiset(t) && s != []
    ensures t != [] && s[0] == t[0]
  {
    assert s[0] in multiset(t);
    assert t != [];
    assert t[0] in multiset(s);
    assert s[0] in t && t[0] in s;
  }

  lemma BagTail(s: seq<Id>)
    requires s != []
    ensures multiset(s[1..]) == multiset(s) - multiset{s[0]}
  {
    assert s == [s[0]] + s[1..];
  }

  /** Two descending lists with the same elements are the same list. */
  lemma {:induction false} DescendingUnique(s: seq<Id>, t: seq<Id>)
    requires Descending(s) && Descending(t) && multiset(s) == multiset(t)
    ensures s == t
    decreases |s|
  {
    if s == [] {
      assert |multiset(t)| == 0;
    } else {
      HeadIsMax(s, t);
      BagTail(s);
      BagTail(t);
      DescendingUnique(s[1..], t[1..]);
      assert s == [s[0]] + s[1..] && t == [t[0]] + t[1..];
    }
  }

  lemma InsertedRunDescending(s: seq<Id>, pg: nat, n: nat)
    requires Descending(s) && pg + n <= MAX_ID
    requires forall x :: x in s ==> !(pg <= x < pg + n)
    ensures Descending(InsertedRun(s, pg, n))
  {
    var c := CountAbove(s, pg);
    var t := InsertedRun(s, pg, n);
    forall p, q | 0 <= p < q < |t| ensures t[p] >= t[q] {
      if p < c {
        assert t[p] == s[p] && s[p] in s;
      }
      if q >= c + n {
        assert t[q] == s[q - n] && s[c] >= s[q - n];
      }
    }
  }

  lemma RunDescending(pg: nat, n: nat)
    requires pg + n <= MAX_ID
    ensures Descending(Run(pg, n))
  {
  }

  lemma InsertedRunBag(s: seq<Id>, pg: nat, n: nat)
    requires pg + n <= MAX_ID
    ensures multiset(InsertedRun(s, pg, n)) == multiset(s) + multiset(Run(pg, n))
  {
    var c := CountAbove(s, pg);
    var r := Run(pg, n);
    assert s == s[..c] + s[c..];
    assert multiset(s[..c] + r + s[c..]) == multiset(s[..c]) + multiset(r) + multiset(s[c..]);
  }

  /** Returning a run that the list does not meet is the same union as a merge with it. */
  lemma InsertRunIsMerge(s: seq<Id>, pg: nat, n: nat)
    requires Descending(s) && pg + n <= MAX_ID
    requires forall x :: x in s ==> !(pg <= x < pg + n)
    ensures InsertedRun(s, pg, n) == Merge(s, Run(pg, n))
  {
    InsertedRunDescending(s, pg, n);
    InsertedRunBag(s, pg, n);
    hide *;
    MergeMultiset(s, Run(pg, n));
    RunDescending(pg, n);
    MergeDescending(s, Run(pg, n));
    DescendingUnique(InsertedRun(s, pg, n), Merge(s, Run(pg, n)));
  }
}
