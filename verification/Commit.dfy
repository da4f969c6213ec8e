/** The last part of mdb_txn_commit: the dirty pages are written, then synced, then the older meta page is
    overwritten. */
module Commit {
  import opened Pages
  import opened Mvcc
  import opened MvccProof
  import opened MvccRuns
  import opened Env

  /** Pages at the first n places of the dirty list that are not loose are in the file, the others as before. */
  ghost predicate Flushed(was: File, now: File, mem: File, dirty: seq<nat>, loose: set<nat>, n: nat)
    requires n <= |dirty|
  {
    && (forall i :: 0 <= i < n && dirty[i] !in loose && dirty[i] in mem ==>
         dirty[i] in now && now[dirty[i]] == mem[dirty[i]])
    && (forall q :: q !in dirty[..n] || q in loose ==> (q in now <==> q in was) && (q in was ==> now[q] == was[q]))
  }

  lemma FlushedOne(was: File, now: File, mem: File, dirty: seq<nat>, loose: set<nat>, n: nat)
    requires n < |dirty| && Flushed(was, now, mem, dirty, loose, n) && dirty[n] in mem
    ensures Flushed(was, if dirty[n] in loose then now else now[dirty[n] := mem[dirty[n]]], mem, dirty, loose, n + 1)
  {
    assert dirty[..n + 1] == dirty[..n] + [dirty[n]];
  }

  /** One step of the writer. */
  lemma WriterMoves(s: State, act: WriterAction, tr: seq<State>, s0: State)
    requires Inv(s) && Enabled(s, Write(act)) && IsTrace(tr, s0, s)
    ensures Inv(Apply(s, Write(act))) && IsTrace(tr + [Apply(s, Write(act))], s0, Apply(s, Write(act)))
  {
    hide Inv, Enabled, Apply, IsTrace, Step;
    StepInv(s, Write(act));
    StepBy(s, Write(act));
    TraceSnoc(tr, s0, s, Apply(s, Write(act)));
  }

  /** None of these states has another last commit. */
  ghost predicate AllAt(tr: seq<State>, latest: nat) {
    forall q :: q in tr ==> q.latest == latest
  }

  /** A commit under way: what the code holds in its variables, and the state. */
  ghost predicate Under(s: State, disk: File, mem: File, phase: Phase) {
    s.writer.Some? && s.latest in s.snaps && s.disk == disk && s.writer.value.mem == mem &&
      s.writer.value.phase == phase
  }

  lemma PageStep(s: State, disk: File, mem: File, q: nat)
    requires Under(s, disk, mem, Saved) && q in mem
    ensures Enabled(s, Write(WritePage(q))) && Apply(s, Write(WritePage(q))) == s.(disk := disk[q := mem[q]])
    ensures Under(s.(disk := disk[q := mem[q]]), disk[q := mem[q]], mem, Saved)
  {
  }

  /** mdb_page_flush: every dirty page that is not loose is written; any prefix of the writes is a run of the state
      machine. */
  method Flush(dirty: seq<nat>, loose: set<nat>, mem: File, disk: File, ghost s: State, ghost tr0: seq<State>,
               ghost s0: State)
    returns (disk': File, ghost tr: seq<State>)
    requires Inv(s) && IsTrace(tr0, s0, s) && Under(s, disk, mem, Saved) && forall q :: q in dirty ==> q in mem
    requires AllAt(tr0, s.latest)
    ensures Inv(s.(disk := disk')) && IsTrace(tr, s0, s.(disk := disk')) && Under(s.(disk := disk'), disk', mem, Saved)
    ensures Flushed(disk, disk', mem, dirty, loose, |dirty|) && AllAt(tr, s.latest)
  {
    hide Inv, IsTrace, Under, Flushed, Enabled, Apply;
    disk', tr := disk, tr0;
    FlushStart(s, disk, mem, dirty, loose);
    for i := 0 to |dirty|
      invariant Inv(s.(disk := disk')) && IsTrace(tr, s0, s.(disk := disk'))
      invariant Under(s.(disk := disk'), disk', mem, Saved)
      invariant Flushed(disk, disk', mem, dirty, loose, i) && AllAt(tr, s.latest)
    {
      var q := dirty[i];
      FlushedOne(disk, disk', mem, dirty, loose, i);
      if q !in loose {
        PageStep(s.(disk := disk'), disk', mem, q);
        WriterMoves(s.(disk := disk'), WritePage(q), tr, s0);
        disk' := disk'[q := mem[q]];
        tr := tr + [s.(disk := disk')];
      }
    }
  }

  lemma FlushStart(s: State, disk: File, mem: File, dirty: seq<nat>, loose: set<nat>)
    requires Under(s, disk, mem, Saved)
    ensures s.(disk := disk) == s && Flushed(disk, disk, mem, dirty, loose, 0)
  {
  }

  lemma SaveStep(s: State, disk: File, mem: File)
    requires Under(s, disk, mem, Running) && SaveDone(s, s.writer.value)
    ensures Enabled(s, Write(Save)) && Under(Apply(s, Write(Save)), disk, mem, Saved)
    ensures Apply(s, Write(Save)) == s.(writer := Some(s.writer.value.(phase := Saved)))
  {
    hide SaveDone;
  }

  lemma SyncStep(s: State, disk: File, mem: File, dirty: seq<nat>, loose: set<nat>, was: File)
    requires Under(s, disk, mem, Saved) && Flushed(was, disk, mem, dirty, loose, |dirty|)
    requires (forall q :: q in mem ==> q in dirty) && loose !! TreePages(s.writer.value)
    ensures Enabled(s, Write(Sync)) && Under(Apply(s, Write(Sync)), disk, mem, Synced)
    ensures Apply(s, Write(Sync)) == s.(stable := disk, writer := Some(s.writer.value.(phase := Synced)))
  {
    hide TreePages;
    forall q | q in mem && q in TreePages(s.writer.value) ensures q in disk && disk[q] == mem[q] {
      assert q in dirty;
      var i :| 0 <= i < |dirty| && dirty[i] == q;
    }
  }

  lemma MetaStep(s: State, disk: File, mem: File, metas: seq<Meta>, t: nat)
    requires Under(s, disk, mem, Synced) && s.metas == metas && |metas| == 2 && t == s.latest + 1
    ensures Enabled(s, Write(WriteMeta))
    ensures var w := s.writer.value;
            var n := Snap(w.free, w.main, w.next);
            Apply(s, Write(WriteMeta)) ==
              s.(metas := metas[t % 2 := MetaOf(t, n)], latest := t, snaps := s.snaps[t := n], writer := None)
  {
  }

  /** From the saved freelist to the new meta page. The toggle is the low bit of the transaction ID, so the page
      written is the one that the last commit did not write; when it returns, the state has one more snapshot, the
      trees as this transaction saw them. */
  method CommitTxn(dirty: seq<nat>, loose: set<nat>, mem: File, disk: File, metas: seq<Meta>, txnid: nat, next: nat,
                   freeRoot: seq<nat>, mainRoot: seq<nat>, ghost s: State)
    returns (disk': File, metas': seq<Meta>, ghost r: State, ghost tr: seq<State>)
    requires Inv(s) && s.writer.Some? && Under(s, disk, mem, Running) && SaveDone(s, s.writer.value) && s.metas == metas
    requires |metas| == 2
    requires (forall q :: q in dirty <==> q in mem) && loose !! TreePages(s.writer.value)
    requires txnid == s.latest + 1
    requires var w := s.writer.value; next == w.next >= 2 && Roots(w.free) == freeRoot && Roots(w.main) == mainRoot
    ensures Inv(r) && IsTrace(tr, s, r) && r.writer == None && r.latest == txnid && r.readers == s.readers
    ensures r.disk == disk' && r.stable == disk' && r.metas == metas'
    ensures metas' == metas[txnid % 2 := Meta(txnid, next - 1, freeRoot, mainRoot)]
    ensures txnid in r.snaps && r.snaps[txnid] == Snap(s.writer.value.free, s.writer.value.main, next)
    ensures Flushed(disk, disk', mem, dirty, loose, |dirty|)
    ensures tr != [] && AllAt(tr[..|tr| - 1], txnid - 1)
  {
    hide Inv, IsTrace, Under, Flushed, Enabled, Apply, SaveDone, Roots, TreePages;
    ghost var w := s.writer.value;
    TraceOne(s);
    SaveStep(s, disk, mem);
    WriterMoves(s, Save, [s], s);
    ghost var s1 := s.(writer := Some(w.(phase := Saved)));
    disk', tr := Flush(dirty, loose, mem, disk, s1, [s] + [s1], s);
    ghost var s2 := s1.(disk := disk');
    SamePages(w, w.(phase := Saved));
    SyncStep(s2, disk', mem, dirty, loose, disk);
    WriterMoves(s2, Sync, tr, s);
    ghost var s3 := s2.(stable := disk', writer := Some(w.(phase := Synced)));
    tr := tr + [s3];
    MetaStep(s3, disk', mem, metas, txnid);
    WriterMoves(s3, WriteMeta, tr, s);
    r := Apply(s3, Write(WriteMeta));
    assert (tr + [r])[..|tr + [r]| - 1] == tr;
    tr := tr + [r];
    var toggle := txnid % 2;
    metas' := metas[toggle := Meta(txnid, next - 1, freeRoot, mainRoot)];
  }

  lemma SamePages(w: Writer, v: Writer)
    requires v.free == w.free && v.main == w.main
    ensures TreePages(v) == TreePages(w)
  {
  }

  /** Wherever execution stops on the way, whatever unsynced writes are lost, a restart finds the last commit of that
      moment intact: before the meta page is written the old one, afterwards the new one. */
  lemma CrashOnTheWay(run: seq<State>, tr: seq<State>, r: State, k: nat, lost: set<nat>)
    requires IsRun(run) && IsTrace(tr, run[|run| - 1], r) && k < |tr|
    ensures var s := tr[k];
            var d := Restore(s.disk, s.stable, lost);
            && |s.metas| == 2 && s.latest in s.snaps && s.metas[PickMeta(s.metas)].txnid == s.latest
            && TreesOk(d, s.snaps[s.latest].free, s.snaps[s.latest].main)
            && forall free, main :: Reads(d, s.metas[PickMeta(s.metas)], free, main)
                 ==> free == s.snaps[s.latest].free && main == s.snaps[s.latest].main
  {
    hide IsRun, TreesOk, Reads, Restore, Step;
    RunExtended(run, tr, r);
    var all := run + tr[1..];
    RunStart(run);
    assert all[|run| - 1 + k] == tr[k];
    CrashAtomicity(all, |run| - 1 + k, lost);
  }

  lemma RunStart(run: seq<State>)
    requires IsRun(run)
    ensures run != []
  {
  }
}
