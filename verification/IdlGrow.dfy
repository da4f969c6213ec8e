/** Growing ID lists: the list is reallocated when it is full; the allocated length is Length - 1. */
module IdlGrow {
  import opened Idl
  import opened IdlPages

  /** num + num / 4 + 258 rounded down to a multiple of 256, as mdb_midl_need computes it. */
  function NeedWords(num: nat): nat {
    (num + num / 4 + 258) / 256 * 256
  }

  /** Two of the words are the allocated length and the count; the rest is always enough. */
  lemma NeedWordsSuffice(num: nat)
    ensures NeedWords(num) >= num + num / 4 + 3 && NeedWords(num) % 256 == 0
  {
    var x := num + num / 4 + 258;
    assert x / 256 * 256 + x % 256 == x;
  }

  /** From n on, the first number of slots that is one less than a multiple of 2^17. */
  ghost predicate Blocks(grown: nat, n: nat) {
    n <= grown <= n + UM_MAX && (grown + 1) % (UM_MAX + 1) == 0
  }

  /** n with all low bits of MDB_IDL_UM_MAX set. */
  function OrMax(n: nat): (r: nat)
    ensures n <= r <= n + UM_MAX && Blocks(r, n)
  {
    n / (UM_MAX + 1) * (UM_MAX + 1) + UM_MAX
  }

  /** Room for so many IDs, a quarter more at least, in whole blocks of 256 words. */
  ghost predicate Roomy(allocLen: nat, total: nat) {
    allocLen > total + total / 4 && (allocLen + 2) % 256 == 0
  }

  method CopyTail(dst: array<Id>, at: nat, src: array<Id>)
    requires dst != src && IsIdl(src) && at + src[0] as int <= dst.Length
    modifies dst
    ensures dst[..at] == old(dst[..at]) && dst[at..at + src[0]] == Ids(src)
  {
    forall k | 0 <= k < src[0] {
      dst[at + k] := src[1 + k];
    }
  }

  /** The loop counts n down while the page number goes up: highest page first. */
  method WriteRun(ids: array<Id>, len: nat, id0: nat, n0: nat)
    requires len + n0 < ids.Length && id0 + n0 <= MAX_ID
    modifies ids
    ensures ids[..len + 1] == old(ids[..len + 1])
    ensures ids[len + 1..len + n0 + 1] == Run(id0, n0)
  {
    var id, n := id0, n0;
    while n > 0
      invariant 0 <= n <= n0 && id == id0 + (n0 - n)
      invariant forall k :: 0 <= k <= len ==> ids[k] == old(ids[k])
      invariant forall k :: len + n < k <= len + n0 ==> ids[k] == id0 + (len + n0 - k)
    {
      ids[len + n] := id;
      n := n - 1;
      id := id + 1;
    }
  }

  class IdList {
    var ids: array<Id>

    ghost predicate Valid()
      reads this, ids
    {
      IsIdl(ids)
    }

    /** mdb_midl_alloc: an empty list with room for num IDs. */
    constructor (num: nat)
      requires num < MAX_ID
      ensures Valid() && View() == [] && AllocLen() == num && fresh(ids)
    {
      ids := new Id[num + 1](_ => 0);
    }

    function View(): seq<Id>
      requires Valid()
      reads this, ids
    {
      Ids(ids)
    }

    function AllocLen(): nat
      reads this, ids
      requires Valid()
    {
      ids.Length - 1
    }

    /** realloc to allocLen slots: the list moves unchanged. */
    method Realloc(allocLen: nat)
      requires Valid() && ids[0] <= allocLen < MAX_ID
      modifies this
      ensures Valid() && fresh(ids) && View() == old(View()) && AllocLen() == allocLen
    {
      var n := new Id[allocLen + 1];
      forall k | 0 <= k <= ids[0] {
        n[k] := ids[k];
      }
      ids := n;
    }

    /** Make room for num more IDs. */
    method Need(num: nat)
      requires Valid() && ids[0] as int + num < 0x8000_0000
      modifies this
      ensures Valid() && View() == old(View())
      ensures if |View()| + num <= old(AllocLen()) then ids == old(ids)
              else fresh(ids) && AllocLen() + 2 == NeedWords(|View()| + num) && Roomy(AllocLen(), |View()| + num)
    {
      var total: nat := num + ids[0];
      if total > ids.Length - 1 {
        NeedWordsSuffice(total);
        Realloc(NeedWords(total) - 2);
      }
    }

    method Append(id: Id)
      requires Valid() && ids.Length + UM_MAX < MAX_ID
      modifies this, ids
      ensures Valid() && View() == old(View()) + [id]
      ensures if old(|View()| < AllocLen()) then ids == old(ids)
              else fresh(ids) && AllocLen() == old(AllocLen()) + UM_MAX
    {
      if ids[0] >= ids.Length - 1 {
        Realloc(ids.Length - 1 + UM_MAX);
      }
      ghost var s := View();
      ids[0] := ids[0] + 1;
      ids[ids[0]] := id;
      assert View() == s + [id];
    }

    method AppendList(app: array<Id>)
      requires Valid() && IsIdl(app) && app != ids && ids.Length as int + app[0] as int < MAX_ID
      modifies this, ids
      ensures Valid() && View() == old(View()) + old(Ids(app))
      ensures if old(|View()| + |Ids(app)| < AllocLen()) then ids == old(ids)
              else fresh(ids) && AllocLen() == old(AllocLen() + |Ids(app)|)
    {
      var n: nat := app[0];
      if ids[0] as int + n >= ids.Length - 1 {
        Realloc(ids.Length - 1 + n);
      }
      PutList(app);
    }

    method PutList(app: array<Id>)
      requires Valid() && IsIdl(app) && app != ids && ids[0] as int + app[0] as int < ids.Length
      modifies ids
      ensures Valid() && View() == old(View()) + Ids(app)
    {
      ghost var s := View();
      var len: nat := ids[0];
      ids[0] := len + app[0];
      ghost var before := ids[..len + 1];
      CopyTail(ids, len + 1, app);
      RunAppended(ids[..], before, s, len, app[0], Ids(app));
    }

    /** Append the pages id .. id + n - 1, highest first. */
    method AppendRange(id0: nat, n0: nat)
      requires Valid() && id0 + n0 <= MAX_ID && ids.Length + n0 + UM_MAX + 1 < MAX_ID
      modifies this, ids
      ensures Valid() && View() == old(View()) + Run(id0, n0)
      ensures if old(|View()| + n0 <= AllocLen()) then ids == old(ids)
              else fresh(ids) && AllocLen() >= old(AllocLen()) && Blocks(AllocLen() - old(AllocLen()), n0)
    {
      hide Run, OrMax, Blocks;
      var len: nat := ids[0];
      if len + n0 > ids.Length - 1 {
        Realloc(ids.Length - 1 + OrMax(n0));
      }
      PutRun(id0, n0);
    }

    method PutRun(id0: nat, n0: nat)
      requires Valid() && id0 + n0 <= MAX_ID && ids[0] as int + n0 < ids.Length
      modifies ids
      ensures Valid() && View() == old(View()) + Run(id0, n0)
    {
      hide Run;
      ghost var s := View();
      var len: nat := ids[0];
      ids[0] := len + n0;
      ghost var before := ids[..len + 1];
      WriteRun(ids, len, id0, n0);
      RunAppended(ids[..], before, s, len, n0, Run(id0, n0));
    }
  }

  lemma RunAppended(now: seq<Id>, before: seq<Id>, s: seq<Id>, len: nat, n: nat, run: seq<Id>)
    requires len + n < |now| && |before| == len + 1 && s == before[1..] && |run| == n
    requires now[..len + 1] == before && now[len + 1..len + n + 1] == run
    ensures now[1..len + n + 1] == s + run
  {
    assert now[1..len + n + 1] == now[..len + 1][1..] + now[len + 1..len + n + 1];
  }
}
