/** Every step of the environment keeps the invariant. */
module MvccProof {
  import opened Pages
  import opened Mvcc

  /** The committed part of the state is the same and no snapshot became live. */
  ghost predicate SameCommits(s: State, r: State) {
    && r.metas == s.metas && r.latest == s.latest && r.snaps == s.snaps
    && forall t: nat :: Live(r, t) ==> Live(s, t)
  }

  lemma RecordsShrink(s: State, r: State)
    requires SnapsOk(s) && RecordsOk(s) && SameCommits(s, r)
    ensures s.latest in r.snaps && RecordsOk(r)
  {
    hide Records, Content, SnapPages, SnapIntact, ListsApart, Live, ListedAbove;
    assert LatestRecords(r) == LatestRecords(s);
  }

  lemma SnapsShrink(s: State, r: State)
    requires SnapsOk(s) && SameCommits(s, r)
    requires r.disk == s.disk && r.stable == s.stable
    ensures SnapsOk(r)
  {
    hide SnapPages, SnapIntact, Live;
  }

  /** Fewer live snapshots, same everything else that matters: the invariant on committed data carries over. */
  lemma LiveShrinks(s: State, r: State)
    requires MetasOk(s) && SnapsOk(s) && RecordsOk(s)
    requires SameCommits(s, r) && r.disk == s.disk && r.stable == s.stable
    ensures MetasOk(r) && SnapsOk(r) && RecordsOk(r) && s.latest in s.snaps
  {
    hide SnapsOk, RecordsOk, Live;
    assert s.latest in s.snaps;
    RecordsShrink(s, r);
    SnapsShrink(s, r);
  }

  lemma WriterFrame(s: State, r: State, w: Writer)
    requires s.latest in s.snaps && WriterOk(s, w)
    requires SameCommits(s, r) && r.disk == s.disk && r.stable == s.stable
    ensures WriterOk(r, w)
  {
    hide TreesOk, Reach, SnapIntact, FreeRecords, ListedAbove, ListedUpTo, Partition, SnapPages, ListsApart, Live;
    assert LatestRecords(r) == LatestRecords(s);
    assert Shielded(r, w.owned + w.head);
  }

  lemma {:induction false} OldestMember(readers: seq<Option<nat>>, top: nat, bound: nat)
    requires bound <= top && forall t: nat :: Some(t) in readers ==> bound <= t
    ensures bound <= OldestReader(readers, top)
  {
  }

  lemma ReadersInv(s: State, r: State)
    requires Inv(s) && r == s.(readers := r.readers)
    requires forall t: nat :: Some(t) in r.readers ==> Live(s, t) && s.oldest <= t
    ensures Inv(r)
  {
    assert SameCommits(s, r);
    OldestMember(r.readers, r.latest, s.oldest);
    hide MetasOk, SnapsOk, RecordsOk, WriterOk, OldestReader, Live;
    LiveShrinks(s, r);
    if s.writer.Some? { WriterFrame(s, r, s.writer.value); }
  }

  lemma BeginReadInv(s: State, slot: nat)
    requires Inv(s) && Enabled(s, BeginRead(slot))
    ensures Inv(Apply(s, BeginRead(slot)))
  {
    hide SnapsOk, RecordsOk, WriterOk;
    ReadersInv(s, Apply(s, BeginRead(slot)));
  }

  lemma EndReadInv(s: State, slot: nat)
    requires Inv(s) && Enabled(s, EndRead(slot))
    ensures Inv(Apply(s, EndRead(slot)))
  {
    hide SnapsOk, RecordsOk, WriterOk;
    ReadersInv(s, Apply(s, EndRead(slot)));
  }

  lemma RefreshInv(s: State, r: State)
    requires Inv(s) && r == s.(oldest := Oldest(s))
    ensures Inv(r)
  {
    hide SnapsOk, RecordsOk, WriterOk, MetasOk, Live;
    LiveSame(s, r);
    LiveShrinks(s, r);
    if s.writer.Some? { WriterFrame(s, r, s.writer.value); }
  }

  // ---------------------------------------------------------------- record sets

  lemma ListedApartFrom(recs: map<nat, seq<nat>>, last: nat, pages: set<nat>)
    requires forall t :: t in recs && t > last ==> Elems(recs[t]) !! pages
    ensures ListedAbove(recs, last) !! pages
  {
    forall p | p in ListedAbove(recs, last) ensures p !in pages {
      var t :| t in recs && t > last && p in recs[t];
      assert p in Elems(recs[t]);
    }
  }

  /** Consuming the next record removes exactly its pages from the unconsumed ones. */
  lemma ListedStep(recs: map<nat, seq<nat>>, last: nat, t: nat)
    requires ListsApart(recs) && NextRecord(recs, last, t)
    ensures ListedAbove(recs, last) == ListedAbove(recs, t) + Elems(recs[t])
    ensures ListedAbove(recs, t) !! Elems(recs[t])
  {
    var above, rest, rec := ListedAbove(recs, last), ListedAbove(recs, t), Elems(recs[t]);
    forall p | p in above ensures p in rest + rec {
      var u :| u in recs && u > last && p in recs[u];
    }
    ListedApartFrom(recs, t, rec);
  }

  lemma BaseApart(s: State)
    requires SnapsOk(s) && RecordsOk(s) && Live(s, s.latest)
    ensures forall t :: t in LatestRecords(s) ==> Elems(LatestRecords(s)[t]) !! SnapPages(s.snaps[s.latest])
  {
    hide SnapPages, ListsApart, Live, Records, Content, Elems, SnapIntact;
  }

  lemma LatestLive(s: State)
    requires MetasOk(s)
    ensures Live(s, s.latest)
  {
  }

  function FirstWriter(n: Snap): Writer {
    Writer(n.next, map[], {}, {}, {}, {}, {}, 0, n.free, n.main, Running)
  }

  lemma FirstParts(s: State)
    requires MetasOk(s) && SnapsOk(s) && RecordsOk(s)
    ensures Parts(s, FirstWriter(s.snaps[s.latest]))
  {
    hide Reach, Records, Content, ListsApart, Live, ListedAbove, SnapIntact, Elems, MetasOk;
    LatestLive(s);
    BaseApart(s);
    ListedApartFrom(LatestRecords(s), 0, SnapPages(s.snaps[s.latest]));
  }

  lemma FirstWriterOk(s: State)
    requires MetasOk(s) && SnapsOk(s) && RecordsOk(s)
    ensures WriterOk(s, FirstWriter(s.snaps[s.latest]))
  {
    hide Reach, Records, Content, ListsApart, Live, ListedAbove, Elems, MetasOk, Parts, RecordsOk, TreesOk;
    LatestLive(s);
    FirstParts(s);
    assert View(s.disk, map[]) == s.disk;
    assert SnapIntact(s.disk, s.stable, s.snaps[s.latest]);
  }

  /** Steps that change nothing but the writer need only look at the writer. */
  lemma WriterStep(s: State, w: Writer)
    requires Inv(s) && WriterOk(s, w)
    ensures Inv(WithWriter(s, w))
  {
    hide WriterOk, SnapsOk, RecordsOk, MetasOk, OldestReader;
    var r := WithWriter(s, w);
    InvLatest(s);
    LiveSame(s, r);
    hide Live;
    LiveShrinks(s, r);
    WriterFrame(s, r, w);
  }

  lemma BeginWriteInv(s: State)
    requires Inv(s) && Enabled(s, BeginWrite)
    ensures Inv(Apply(s, BeginWrite))
  {
    FirstWriterOk(s);
    WriterStep(s, FirstWriter(s.snaps[s.latest]));
  }

  /** No live snapshot is older than a record that may be consumed. */
  lemma ConsumableIsOld(s: State, t: nat)
    requires MetasOk(s) && s.oldest <= Oldest(s) && t < s.oldest
    ensures forall u: nat :: Live(s, u) ==> t <= u
  {
  }

  /** The pages of a consumable record are reachable from no live snapshot. */
  lemma RecordShielded(s: State, t: nat)
    requires Inv(s) && t in LatestRecords(s) && t < s.oldest
    ensures Shielded(s, Elems(LatestRecords(s)[t]))
  {
    hide SnapPages, ListsApart, Live, Records, Content, Elems, SnapIntact, WriterOk, Oldest;
    ConsumableIsOld(s, t);
  }

  // ---------------------------------------------------------------- moves between the six parts

  lemma MoveListedToHead(t: set<nat>, h: set<nat>, l: set<nat>, l': set<nat>, x: set<nat>, d: set<nat>, f: set<nat>,
                         o: set<nat>, u: set<nat>)
    requires Partition(t, h, l, d, f, o, u) && l == l' + x && l' !! x
    ensures Partition(t, h, l', d + x, f, o, u)
  {
  }

  lemma MoveHeadToHand(t: set<nat>, h: set<nat>, l: set<nat>, d: set<nat>, f: set<nat>, o: set<nat>, u: set<nat>,
                       x: set<nat>)
    requires Partition(t, h, l, d, f, o, u) && x <= d
    ensures Partition(t, h + x, l, d - x, f, o, u)
  {
  }

  lemma MoveLooseToHand(t: set<nat>, h: set<nat>, l: set<nat>, d: set<nat>, f: set<nat>, o: set<nat>, u: set<nat>,
                        x: set<nat>)
    requires Partition(t, h, l, d, f, o, u) && x <= o
    ensures Partition(t, h + x, l, d, f, o - x, u)
  {
  }

  lemma AddToHand(t: set<nat>, h: set<nat>, l: set<nat>, d: set<nat>, f: set<nat>, o: set<nat>, u: set<nat>,
                  x: set<nat>)
    requires Partition(t, h, l, d, f, o, u) && x !! u
    ensures Partition(t, h + x, l, d, f, o, u + x)
  {
  }

  lemma EmptyLoose(t: set<nat>, h: set<nat>, l: set<nat>, d: set<nat>, f: set<nat>, o: set<nat>, u: set<nat>,
                   x: set<nat>)
    requires Partition(t, h, l, d, f, o, u) && x <= o
    ensures Partition(t, h, l, d + x, f + (o - x), {}, u)
  {
  }

  lemma EditParts(t: set<nat>, h: set<nat>, l: set<nat>, d: set<nat>, f: set<nat>, o: set<nat>, u: set<nat>,
                  t': set<nat>, h': set<nat>, f': set<nat>, o': set<nat>, d': set<nat>)
    requires Partition(t, h, l, d, f, o, u)
    requires t' !! h' !! f' !! o' !! d' && t' + h' + f' + o' + d' == t + h
    ensures Partition(t', h', l, d + d', f + f', o + o', u)
  {
  }

  // ---------------------------------------------------------------- the writer's steps

  /** What a running writer must show about itself; the trees are given separately. */
  lemma RunningOk(s: State, w: Writer)
    requires s.latest in s.snaps && w.phase == Running
    requires TreesOk(View(s.disk, w.mem), w.free, w.main)
    requires w.mem.Keys <= w.owned && w.hand <= w.owned && w.loose <= w.owned
    requires Shielded(s, w.owned) && Shielded(s, w.head)
    requires s.snaps[s.latest].next <= w.next && w.last <= s.latest && Parts(s, w)
    ensures WriterOk(s, w)
  {
    hide TreesOk, Parts, SnapPages, Live;
  }

  lemma ShieldedPart(s: State, a: set<nat>, b: set<nat>)
    requires Shielded(s, b) && a <= b
    ensures Shielded(s, a)
  {
    hide SnapPages, Live;
  }

  lemma ShieldedUnion(s: State, a: set<nat>, b: set<nat>)
    requires Shielded(s, a) && Shielded(s, b)
    ensures Shielded(s, a + b)
  {
    hide SnapPages, Live;
  }

  lemma WriterShields(s: State, w: Writer)
    requires s.latest in s.snaps && WriterOk(s, w)
    ensures Shielded(s, w.owned) && Shielded(s, w.head)
  {
    hide SnapPages, Live, TreesOk, Parts, SaveDone;
    ShieldedPart(s, w.owned, w.owned + w.head);
    ShieldedPart(s, w.head, w.owned + w.head);
  }

  lemma FetchParts(s: State, w: Writer, w': Writer, recs: map<nat, seq<nat>>, t: nat)
    requires s.latest in s.snaps && Parts(s, w) && recs == LatestRecords(s)
    requires ListsApart(recs) && NextRecord(recs, w.last, t)
    requires w' == w.(head := w.head + Elems(recs[t]), last := t)
    ensures Parts(s, w')
  {
    hide Partition, LatestRecords, ListedAbove, Span, Reach;
    ListedStep(recs, w.last, t);
    MoveListedToHead(TreePages(w), w.hand, ListedAbove(recs, w.last), ListedAbove(recs, t), Elems(recs[t]), w.head,
      w.freePgs, w.loose, Span(2, w.next - 2));
  }

  lemma FetchWriter(s: State, w: Writer, w': Writer, recs: map<nat, seq<nat>>, t: nat)
    requires s.latest in s.snaps && WriterOk(s, w) && w.phase == Running
    requires recs == LatestRecords(s) && ListsApart(recs) && NextRecord(recs, w.last, t) && t <= s.latest
    requires Shielded(s, Elems(recs[t]))
    requires w' == w.(head := w.head + Elems(recs[t]), last := t)
    ensures WriterOk(s, w')
  {
    hide TreesOk, Shielded, Parts, SaveDone, Live;
    WriterShields(s, w);
    ShieldedUnion(s, w.head, Elems(recs[t]));
    FetchParts(s, w, w', recs, t);
    RunningOk(s, w');
  }

  lemma TakeLooseParts(s: State, w: Writer, w': Writer, p: nat)
    requires s.latest in s.snaps && Parts(s, w) && p in w.loose
    requires w' == w.(loose := w.loose - {p}, hand := w.hand + {p})
    ensures Parts(s, w')
  {
    hide Partition, LatestRecords, ListedAbove, Span, Reach;
    MoveLooseToHand(TreePages(w), w.hand, ListedAbove(LatestRecords(s), w.last), w.head, w.freePgs, w.loose,
      Span(2, w.next - 2), {p});
  }

  lemma TakeLooseWriter(s: State, w: Writer, w': Writer, p: nat)
    requires s.latest in s.snaps && WriterOk(s, w) && w.phase == Running
    requires p in w.loose
    requires w' == w.(loose := w.loose - {p}, hand := w.hand + {p})
    ensures WriterOk(s, w')
  {
    hide TreesOk, Shielded, Parts, SaveDone, Live;
    WriterShields(s, w);
    TakeLooseParts(s, w, w', p);
    RunningOk(s, w');
  }

  lemma TakeHeadParts(s: State, w: Writer, w': Writer, run: set<nat>)
    requires s.latest in s.snaps && Parts(s, w) && run <= w.head
    requires w' == w.(head := w.head - run, hand := w.hand + run, owned := w.owned + run)
    ensures Parts(s, w')
  {
    hide Partition, LatestRecords, ListedAbove, Span, Reach;
    MoveHeadToHand(TreePages(w), w.hand, ListedAbove(LatestRecords(s), w.last), w.head, w.freePgs, w.loose,
      Span(2, w.next - 2), run);
  }

  lemma TakeHeadWriter(s: State, w: Writer, w': Writer, run: set<nat>)
    requires s.latest in s.snaps && WriterOk(s, w) && w.phase == Running
    requires run <= w.head
    requires w' == w.(head := w.head - run, hand := w.hand + run, owned := w.owned + run)
    ensures WriterOk(s, w')
  {
    hide TreesOk, Shielded, Parts, SaveDone, Live;
    WriterShields(s, w);
    ShieldedPart(s, run, w.head);
    ShieldedPart(s, w.head - run, w.head);
    ShieldedUnion(s, w.owned, run);
    TakeHeadParts(s, w, w', run);
    RunningOk(s, w');
  }

  /** New pages lie beyond every committed snapshot. */
  lemma NewPagesShielded(s: State, next: nat, num: nat)
    requires SnapsOk(s) && s.snaps[s.latest].next <= next
    ensures Shielded(s, Span(next, num))
  {
    hide SnapPages, Live, SnapIntact;
  }

  lemma SpanSplit(next: nat, num: nat)
    requires next >= 2
    ensures Span(2, next + num - 2) == Span(2, next - 2) + Span(next, num)
    ensures Span(2, next - 2) !! Span(next, num)
  {
  }

  lemma TakeNewParts(s: State, w: Writer, w': Writer, num: nat)
    requires s.latest in s.snaps && Parts(s, w)
    requires w' == w.(next := w.next + num, hand := w.hand + Span(w.next, num), owned := w.owned + Span(w.next, num))
    ensures Parts(s, w')
  {
    hide Partition, LatestRecords, ListedAbove, Span, Reach;
    SpanSplit(w.next, num);
    AddToHand(TreePages(w), w.hand, ListedAbove(LatestRecords(s), w.last), w.head, w.freePgs, w.loose,
      Span(2, w.next - 2), Span(w.next, num));
  }

  lemma TakeNewWriter(s: State, w: Writer, w': Writer, num: nat, run: set<nat>)
    requires s.latest in s.snaps && WriterOk(s, w) && w.phase == Running
    requires run == Span(w.next, num) && Shielded(s, run)
    requires w' == w.(next := w.next + num, hand := w.hand + run, owned := w.owned + run)
    ensures WriterOk(s, w')
  {
    hide TreesOk, Shielded, Parts, SaveDone, Live;
    WriterShields(s, w);
    ShieldedUnion(s, w.owned, run);
    TakeNewParts(s, w, w', num);
    RunningOk(s, w');
  }

  lemma EditWriterParts(s: State, w: Writer, w': Writer, e: TreeEdit)
    requires s.latest in s.snaps && Parts(s, w) && EditOk(s, w, e)
    requires w' == w.(free := e.free, main := e.main, mem := e.mem, hand := e.hand, freePgs := w.freePgs + e.toFree,
                        loose := w.loose + e.toLoose, head := w.head + e.toHead)
    ensures Parts(s, w')
  {
    hide Partition, LatestRecords, ListedAbove, Span, Reach;
    hide TreesOk;
    EditParts(TreePages(w), w.hand, ListedAbove(LatestRecords(s), w.last), w.head, w.freePgs, w.loose,
      Span(2, w.next - 2),
              Reach(e.free) + Reach(e.main), e.hand, e.toFree, e.toLoose, e.toHead);
  }

  lemma EditWriter(s: State, w: Writer, w': Writer, e: TreeEdit)
    requires s.latest in s.snaps && WriterOk(s, w) && w.phase == Running
    requires EditOk(s, w, e)
    requires w' == w.(free := e.free, main := e.main, mem := e.mem, hand := e.hand, freePgs := w.freePgs + e.toFree,
                 loose := w.loose + e.toLoose, head := w.head + e.toHead)
    ensures WriterOk(s, w')
  {
    hide TreesOk, Shielded, Parts, SaveDone, Live;
    WriterShields(s, w);
    ShieldedPart(s, e.toHead, w.owned);
    ShieldedUnion(s, w.head, e.toHead);
    EditWriterParts(s, w, w', e);
    RunningOk(s, w');
  }

  lemma ReturnLooseParts(s: State, w: Writer, w': Writer, toHead: set<nat>)
    requires s.latest in s.snaps && Parts(s, w) && toHead <= w.loose
    requires w' == w.(loose := {}, head := w.head + toHead, freePgs := w.freePgs + (w.loose - toHead))
    ensures Parts(s, w')
  {
    hide Partition, LatestRecords, ListedAbove, Span, Reach;
    EmptyLoose(TreePages(w), w.hand, ListedAbove(LatestRecords(s), w.last), w.head, w.freePgs, w.loose,
      Span(2, w.next - 2), toHead);
  }

  lemma ReturnLooseWriter(s: State, w: Writer, w': Writer, toHead: set<nat>)
    requires s.latest in s.snaps && WriterOk(s, w) && w.phase == Running
    requires toHead <= w.loose
    requires w' == w.(loose := {}, head := w.head + toHead, freePgs := w.freePgs + (w.loose - toHead))
    ensures WriterOk(s, w')
  {
    hide TreesOk, Shielded, Parts, SaveDone, Live;
    WriterShields(s, w);
    ShieldedPart(s, toHead, w.owned);
    ShieldedUnion(s, w.head, toHead);
    ReturnLooseParts(s, w, w', toHead);
    RunningOk(s, w');
  }

  lemma SavedWriter(s: State, w: Writer)
    requires s.latest in s.snaps && WriterOk(s, w) && w.phase == Running && SaveDone(s, w)
    ensures WriterOk(s, w.(phase := Saved))
  {
    hide Shielded, Partition, TreesOk, Reach, LatestRecords, FreeRecords, ListsApart, Live, ListedAbove, ListedUpTo;
  }

  // ---------------------------------------------------------------- steps that touch the file

  lemma TreesFrame(d: File, e: File, free: seq<Tree>, main: seq<Tree>)
    requires TreesOk(d, free, main)
    requires forall p :: p in Reach(free) + Reach(main) && p in d ==> p in e && e[p] == d[p]
    ensures TreesOk(e, free, main)
  {
    StoredFrame(d, e, free);
    StoredFrame(d, e, main);
  }

  /** Writing a page that no live snapshot uses leaves every live snapshot intact. */
  lemma WriteKeepsSnaps(s: State, r: State, p: nat, page: Page)
    requires SnapsOk(s) && Shielded(s, {p}) && r == s.(disk := s.disk[p := page])
    ensures SnapsOk(r)
  {
    forall t: nat | Live(r, t) ensures SnapIntact(r.disk, r.stable, r.snaps[t]) {
      assert Live(s, t);
      TreesFrame(s.disk, r.disk, s.snaps[t].free, s.snaps[t].main);
    }
    hide SnapIntact, SnapPages, Live;
    assert forall t: nat :: Live(r, t) <==> Live(s, t);
  }

  /** A step on the file or the writer only: what is left to show is the snapshots and the writer. */
  lemma FileStep(s: State, r: State)
    requires Inv(s)
    requires r == s.(disk := r.disk, stable := r.stable, writer := r.writer)
    requires SnapsOk(r) && (r.writer.Some? ==> WriterOk(r, r.writer.value))
    ensures Inv(r)
  {
    hide SnapsOk, RecordsOk, WriterOk, OldestReader;
    LiveSame(s, r);
    RecordsShrink(s, r);
  }

  lemma WritePageInv(s: State, w: Writer, p: nat, r: State)
    requires Inv(s) && s.writer == Some(w) && p in w.mem && w.phase != Synced
    requires r == s.(disk := s.disk[p := w.mem[p]])
    ensures Inv(r)
  {
    hide MetasOk, SnapsOk, WriterOk, RecordsOk;
    InvLatest(s);
    WrittenWriter(s, w, r, p);
    WriteKeepsSnaps(s, r, p, w.mem[p]);
    FileStep(s, r);
  }

  lemma InvLatest(s: State)
    requires SnapsOk(s)
    ensures s.latest in s.snaps
  {
  }

  lemma MemShielded(s: State, w: Writer, p: nat)
    requires s.latest in s.snaps && WriterOk(s, w) && p in w.mem
    ensures Shielded(s, {p})
  {
    hide Live, SnapPages, TreesOk, Parts, SaveDone;
    WriterShields(s, w);
    ShieldedPart(s, {p}, w.owned);
  }

  lemma ViewAfterWrite(disk: File, mem: File, p: nat)
    requires p in mem
    ensures View(disk[p := mem[p]], mem) == View(disk, mem)
  {
  }

  lemma WrittenWriter(s: State, w: Writer, r: State, p: nat)
    requires s.latest in s.snaps && WriterOk(s, w) && p in w.mem && w.phase != Synced
    requires r == s.(disk := s.disk[p := w.mem[p]])
    ensures Shielded(s, {p}) && WriterOk(r, w)
  {
    hide *;
    ViewAfterWrite(s.disk, w.mem, p);
    MemShielded(s, w, p);
    LiveSame(s, r);
    SameViewWriter(s, r, w);
  }

  lemma SameViewWriter(s: State, r: State, w: Writer)
    requires s.latest in s.snaps && WriterOk(s, w) && w.phase != Synced
    requires r == s.(disk := r.disk) && View(r.disk, w.mem) == View(s.disk, w.mem)
    requires forall t: nat :: Live(r, t) <==> Live(s, t)
    ensures WriterOk(r, w)
  {
    hide Live, SnapPages, Reach, TreesOk, FreeRecords, ListedAbove, ListedUpTo, Partition, ListsApart, View;
    assert LatestRecords(r) == LatestRecords(s);
  }

  lemma SyncedTrees(s: State, w: Writer)
    requires s.latest in s.snaps && WriterOk(s, w)
    requires forall p :: p in w.mem && p in TreePages(w) ==> p in s.disk && s.disk[p] == w.mem[p]
    ensures TreesOk(s.disk, w.free, w.main)
  {
    hide TreesOk, SaveDone, Parts, Shielded, Reach, SnapIntact;
    TreesFrame(View(s.disk, w.mem), s.disk, w.free, w.main);
  }

  lemma SyncInv(s: State, w: Writer, r: State)
    requires Inv(s) && s.writer == Some(w) && w.phase == Saved
    requires forall p :: p in w.mem && p in TreePages(w) ==> p in s.disk && s.disk[p] == w.mem[p]
    requires r == s.(stable := s.disk, writer := Some(w.(phase := Synced)))
    ensures Inv(r)
  {
    hide MetasOk, SnapsOk, WriterOk, RecordsOk, TreesOk;
    InvLatest(s);
    SyncedTrees(s, w);
    SyncedWriter(s, w, r);
    SyncKeepsSnaps(s, r);
    FileStep(s, r);
  }

  lemma SyncedWriter(s: State, w: Writer, r: State)
    requires s.latest in s.snaps && WriterOk(s, w) && w.phase == Saved && TreesOk(s.disk, w.free, w.main)
    requires r == s.(stable := s.disk, writer := Some(w.(phase := Synced)))
    ensures WriterOk(r, w.(phase := Synced))
  {
    hide SnapPages, Reach, TreesOk, FreeRecords, ListedAbove, ListedUpTo, Partition, ListsApart;
    assert LatestRecords(r) == LatestRecords(s);
    assert forall t: nat :: Live(r, t) <==> Live(s, t);
  }

  lemma SyncKeepsSnaps(s: State, r: State)
    requires SnapsOk(s) && r == s.(stable := s.disk, writer := r.writer)
    ensures SnapsOk(r)
  {
    hide TreesOk, SnapPages, Live;
    assert forall t: nat :: Live(r, t) <==> Live(s, t) by { LiveSame(s, r); }
  }

  lemma LiveSame(s: State, r: State)
    requires r.readers == s.readers && r.metas == s.metas
    ensures forall t: nat :: Live(r, t) <==> Live(s, t)
  {
  }

  lemma AbortInv(s: State)
    requires Inv(s)
    ensures Inv(s.(writer := None))
  {
    var r := s.(writer := None);
    hide MetasOk, SnapsOk, RecordsOk, WriterOk;
    LiveShrinks(s, r);
  }

  // ---------------------------------------------------------------- commit

  ghost function Committed(s: State, w: Writer): State
    requires |s.metas| == 2 && w.next >= 2
  {
    var t := s.latest + 1;
    var n := Snap(w.free, w.main, w.next);
    s.(metas := s.metas[t % 2 := MetaOf(t, n)], latest := t, snaps := s.snaps[t := n], writer := None)
  }

  /** The commit overwrites the older meta page and leaves the other one alone. */
  lemma CommitMetas(s: State, w: Writer)
    requires MetasOk(s) && SnapsOk(s) && w.next >= 2
    ensures MetasOk(Committed(s, w))
    ensures forall t: nat :: Live(Committed(s, w), t) ==> t == s.latest + 1 || Live(s, t)
  {
    hide SnapIntact, SnapPages;
  }

  lemma PartsBound(s: State, w: Writer)
    requires s.latest in s.snaps && Parts(s, w)
    ensures forall p :: p in TreePages(w) ==> 2 <= p < w.next
  {
    hide Reach, LatestRecords, ListedAbove, Span;
    assert TreePages(w) <= Span(2, w.next - 2);
  }

  lemma AddSnap(s: State, r: State, n: Snap)
    requires SnapsOk(s) && r.latest == s.latest + 1 && r.snaps == s.snaps[r.latest := n]
    requires r.disk == s.disk && r.stable == s.stable
    requires forall t: nat :: Live(r, t) ==> t == r.latest || Live(s, t)
    requires SnapIntact(s.disk, s.stable, n) && n.next >= 2 && s.snaps[s.latest].next <= n.next
    requires forall p :: p in SnapPages(n) ==> 2 <= p < n.next
    ensures SnapsOk(r)
  {
    hide SnapIntact, Live, SnapPages;
    assert r.latest !in s.snaps;
  }

  lemma CommitSnaps(s: State, w: Writer)
    requires MetasOk(s) && SnapsOk(s) && WriterOk(s, w) && w.phase == Synced
    ensures w.next >= 2 && SnapsOk(Committed(s, w))
  {
    assert |s.metas| == 2;
    hide SnapIntact, Live, MetasOk, SnapsOk, Shielded, SaveDone, Reach, Partition;
    InvLatest(s);
    PartsBound(s, w);
    CommitMetas(s, w);
    AddSnap(s, Committed(s, w), Snap(w.free, w.main, w.next));
  }

  /** Each record of the saved freeDB is one of: an untouched base record, a piece of me_pghead, this commit's freed
      pages. */
  lemma SavedRecordOrigin(s: State, w: Writer, t: nat)
    requires s.latest in s.snaps && SaveDone(s, w) && t in FreeRecords(w.free)
    ensures t <= w.last ==> Elems(FreeRecords(w.free)[t]) <= w.head
    ensures w.last < t <= s.latest ==> t in LatestRecords(s) && FreeRecords(w.free)[t] == LatestRecords(s)[t]
    ensures s.latest < t ==> Elems(FreeRecords(w.free)[t]) <= w.freePgs
  {
    hide FreeRecords, LatestRecords, ListsApart;
  }

  lemma SavedUnion(s: State, w: Writer)
    requires s.latest in s.snaps && SaveDone(s, w) && w.last <= s.latest
    requires forall t :: t in LatestRecords(s) ==> t <= s.latest
    ensures ListedAbove(FreeRecords(w.free), 0) == ListedAbove(LatestRecords(s), w.last) + w.head + w.freePgs
  {
    var recs, base := FreeRecords(w.free), LatestRecords(s);
    forall p | p in ListedAbove(recs, 0) ensures p in ListedAbove(base, w.last) + w.head + w.freePgs {
      var t :| t in recs && t > 0 && p in recs[t];
      SavedRecordOrigin(s, w, t);
      assert p in Elems(recs[t]);
    }
    forall p | p in ListedAbove(base, w.last) ensures p in ListedAbove(recs, 0) {
      var t :| t in base && t > w.last && p in base[t];
    }
  }

  /** A page listed by the saved freeDB is in none of the new trees. */
  lemma SavedApartFromTrees(s: State, w: Writer, t: nat)
    requires s.latest in s.snaps && SaveDone(s, w) && Parts(s, w) && w.last <= s.latest && t in FreeRecords(w.free)
    ensures Elems(FreeRecords(w.free)[t]) !! TreePages(w)
  {
    SavedRecordOrigin(s, w, t);
    var recs, base := FreeRecords(w.free), LatestRecords(s);
    hide FreeRecords, LatestRecords, SaveDone, Reach, Span;
    forall p | p in Elems(recs[t]) ensures p !in TreePages(w) {
      if w.last < t <= s.latest { assert p in ListedAbove(base, w.last); }
    }
  }

  /** The freeDB invariant of the new commit: pages refiled under old keys are safe because they were already
      unreachable from every live snapshot; untouched records keep their guarantee. */
  lemma SavedShield(s: State, w: Writer, r: State, t: nat, u: nat)
    requires SnapsOk(s) && RecordsOk(s) && WriterOk(s, w) && w.phase == Synced
    requires r.snaps == s.snaps[s.latest + 1 := Snap(w.free, w.main, w.next)]
    requires t in FreeRecords(w.free) && t <= u && (u == s.latest + 1 || Live(s, u))
    ensures u in r.snaps && Elems(FreeRecords(w.free)[t]) !! SnapPages(r.snaps[u])
  {
    hide SnapIntact, Live, Reach, Partition, FreeRecords, LatestRecords, ListsApart, ListedAbove, ListedUpTo, Elems;
    if u == s.latest + 1 {
      SavedApartFromTrees(s, w, t);
    } else {
      SavedRecordOrigin(s, w, t);
      WriterShields(s, w);
    }
  }

  lemma SavedWhole(s: State, w: Writer)
    requires s.latest in s.snaps && SaveDone(s, w) && Parts(s, w) && w.last <= s.latest
    requires forall t :: t in LatestRecords(s) ==> t <= s.latest
    ensures ListedAbove(FreeRecords(w.free), 0) + TreePages(w) == Span(2, w.next - 2)
  {
    SavedUnion(s, w);
    assert w.hand == {} && w.loose == {};
    hide *;
    UnionOfParts(s, w);
  }

  lemma UnionOfParts(s: State, w: Writer)
    requires s.latest in s.snaps && Parts(s, w) && w.hand == {} && w.loose == {}
    ensures ListedAbove(LatestRecords(s), w.last) + w.head + w.freePgs + TreePages(w) == Span(2, w.next - 2)
  {
    hide Reach, LatestRecords, ListedAbove, Span;
  }

  lemma CommitShields(s: State, w: Writer, r: State)
    requires SnapsOk(s) && RecordsOk(s) && WriterOk(s, w) && w.phase == Synced
    requires r.snaps == s.snaps[s.latest + 1 := Snap(w.free, w.main, w.next)]
    requires forall t: nat :: Live(r, t) ==> t == s.latest + 1 || Live(s, t)
    ensures forall t: nat, u: nat :: t in FreeRecords(w.free) && Live(r, u) && t <= u && u in r.snaps
              ==> Elems(FreeRecords(w.free)[t]) !! SnapPages(r.snaps[u])
  {
    hide *;
    forall t: nat, u: nat | t in FreeRecords(w.free) && Live(r, u) && t <= u && u in r.snaps
      ensures Elems(FreeRecords(w.free)[t]) !! SnapPages(r.snaps[u])
    {
      SavedShield(s, w, r, t, u);
    }
  }

  lemma SavedFacts(s: State, w: Writer)
    requires SnapsOk(s) && RecordsOk(s) && WriterOk(s, w) && w.phase == Synced
    ensures forall t :: t in LatestRecords(s) ==> t <= s.latest
    ensures w.next >= 2 && w.last <= s.latest && SaveDone(s, w) && Parts(s, w)
    ensures ListsApart(FreeRecords(w.free)) && forall t :: t in FreeRecords(w.free) ==> 1 <= t <= s.latest + 1
  {
    hide TreesOk, Shielded, Reach, Live, FreeRecords, ListsApart, ListedAbove, ListedUpTo, Elems, LatestRecords,
         SnapIntact, Partition;
  }

  lemma CommitRecords(s: State, w: Writer, r: State)
    requires SnapsOk(s) && RecordsOk(s) && WriterOk(s, w) && w.phase == Synced && w.next >= 2
    requires r.latest == s.latest + 1 && r.snaps == s.snaps[s.latest + 1 := Snap(w.free, w.main, w.next)]
    requires forall t: nat :: Live(r, t) ==> t == s.latest + 1 || Live(s, t)
    ensures RecordsOk(r)
  {
    hide *;
    InvLatest(s);
    SavedFacts(s, w);
    CommitShields(s, w, r);
    SavedWhole(s, w);
    CommittedRecords(r, w);
  }

  lemma CommittedRecords(r: State, w: Writer)
    requires w.next >= 2 && r.latest in r.snaps && r.snaps[r.latest] == Snap(w.free, w.main, w.next)
    requires ListsApart(FreeRecords(w.free)) && forall t :: t in FreeRecords(w.free) ==> 1 <= t <= r.latest
    requires forall t: nat, u: nat :: t in FreeRecords(w.free) && Live(r, u) && t <= u && u in r.snaps
               ==> Elems(FreeRecords(w.free)[t]) !! SnapPages(r.snaps[u])
    requires ListedAbove(FreeRecords(w.free), 0) + TreePages(w) == Span(2, w.next - 2)
    ensures RecordsOk(r)
  {
    hide FreeRecords, Reach, ListsApart, Live, Elems, ListedAbove, Span;
    assert LatestRecords(r) == FreeRecords(w.free);
    assert SnapPages(r.snaps[r.latest]) == TreePages(w);
  }

  lemma CommitOldest(s: State, r: State)
    requires s.oldest <= Oldest(s) && r.readers == s.readers && r.latest == s.latest + 1 && r.oldest == s.oldest
    ensures r.oldest <= Oldest(r)
  {
    OldestMember(r.readers, r.latest, s.oldest);
  }

  lemma CommitInv(s: State, w: Writer, r: State)
    requires Inv(s) && s.writer == Some(w) && w.phase == Synced && w.next >= 2 && r == Committed(s, w)
    ensures Inv(r)
  {
    hide SnapsOk, RecordsOk, WriterOk, MetasOk, Oldest, LatestRecords, Reach, Live;
    CommitOldest(s, r);
    CommitMetas(s, w);
    CommitSnaps(s, w);
    CommitRecords(s, w, r);
  }

  // ---------------------------------------------------------------- crash and restart

  lemma PickIsLatest(s: State)
    requires MetasOk(s)
    ensures s.metas[PickMeta(s.metas)].txnid == s.latest
  {
  }

  lemma TreesMix(d: File, e: File, f: File, n: Snap)
    requires SnapIntact(d, e, n)
    requires forall p :: p in d && p in e ==> p in f && (f[p] == d[p] || f[p] == e[p])
    ensures SnapIntact(f, f, n)
  {
    StoredMix(d, e, f, n.free);
    StoredMix(d, e, f, n.main);
  }

  /** Whatever subset of the unsynced writes is lost, both meta pages still name intact trees. */
  lemma CrashInv(s: State, lost: set<nat>, r: State)
    requires Inv(s)
    requires r == s.(disk := Restore(s.disk, s.stable, lost), stable := Restore(s.disk, s.stable, lost),
                     latest := s.metas[PickMeta(s.metas)].txnid, readers := [], oldest := 0, writer := None)
    ensures Inv(r) && r.latest == s.latest
  {
    PickIsLatest(s);
    CrashSnaps(s, lost, r);
    assert SameCommits(s, r);
    hide SnapsOk, RecordsOk, WriterOk;
    RecordsShrink(s, r);
  }

  lemma CrashSnaps(s: State, lost: set<nat>, r: State)
    requires SnapsOk(s) && SameCommits(s, r)
    requires r.disk == r.stable == Restore(s.disk, s.stable, lost)
    ensures SnapsOk(r)
  {
    forall t: nat | Live(r, t) ensures SnapIntact(r.disk, r.stable, r.snaps[t]) {
      assert Live(s, t);
      TreesMix(s.disk, s.stable, r.disk, s.snaps[t]);
    }
    hide SnapIntact, SnapPages, Live;
  }

  // ---------------------------------------------------------------- every step

  lemma RunningStep(s: State, w: Writer, a: WriterAction)
    requires Inv(s) && s.writer == Some(w) && s.latest in s.snaps && w.phase == Running && w.next >= 2
    requires !a.WritePage? && !a.Sync? && !a.WriteMeta? && !a.Abort?
    requires WriterEnabled(s, w, a) && |s.metas| == 2
    ensures Inv(ApplyWriter(s, w, a))
  {
    hide Inv, WriterOk, EditOk, SaveDone;
    var w' := ApplyWriter(s, w, a).writer.value;
    RunningWriter(s, w, w', a);
    WriterStep(s, w');
  }

  lemma RunningWriter(s: State, w: Writer, w': Writer, a: WriterAction)
    requires !a.WritePage? && !a.Sync? && !a.WriteMeta? && !a.Abort?
    requires s.latest in s.snaps && WriterEnabled(s, w, a) && ApplyWriter(s, w, a).writer == Some(w')
    requires s.writer == Some(w) && w.phase == Running && w.next >= 2 && |s.metas| == 2
    requires Inv(s)
    ensures WriterOk(s, w')
  {
    hide WriterOk, EditOk, SaveDone, RecordsOk, SnapsOk, MetasOk, Oldest, Shielded;
    match a {
      case Fetch(t) =>
        RecordShielded(s, t);
        ConsumableFacts(s, t);
        FetchWriter(s, w, w', LatestRecords(s), t);
      case TakeLoose(p) => TakeLooseWriter(s, w, w', p);
      case TakeHead(p, num) => TakeHeadWriter(s, w, w', Span(p, num));
      case TakeNew(num) =>
        NextAboveBase(s, w);
        NewPagesShielded(s, w.next, num);
        TakeNewWriter(s, w, w', num, Span(w.next, num));
      case Edit(e) => EditWriter(s, w, w', e);
      case ReturnLoose(toHead) => ReturnLooseWriter(s, w, w', toHead);
      case Save => SavedWriter(s, w);
    }
  }

  lemma ConsumableFacts(s: State, t: nat)
    requires MetasOk(s) && SnapsOk(s) && RecordsOk(s) && t in LatestRecords(s)
    ensures ListsApart(LatestRecords(s)) && t <= s.latest
  {
  }

  lemma NextAboveBase(s: State, w: Writer)
    requires s.latest in s.snaps && WriterOk(s, w)
    ensures s.snaps[s.latest].next <= w.next
  {
  }

  lemma WriterNext(s: State, w: Writer)
    requires s.latest in s.snaps && WriterOk(s, w)
    ensures w.next >= 2
  {
  }

  /** The invariant survives every step. */
  lemma StepInv(s: State, a: Action)
    requires Inv(s) && Enabled(s, a)
    ensures Inv(Apply(s, a))
  {
    hide WriterOk, RecordsOk, SnapsOk, Oldest, MetaOf, WriterEnabled;
    match a {
      case BeginRead(slot) => BeginReadInv(s, slot);
      case EndRead(slot) => EndReadInv(s, slot);
      case BeginWrite => BeginWriteInv(s);
      case RefreshOldest => RefreshInv(s, s.(oldest := Oldest(s)));
      case Crash(lost) => CrashInv(s, lost, Apply(s, a));
      case Write(act) =>
        WriterNext(s, s.writer.value);
        WriterStepInv(s, s.writer.value, act);
    }
  }

  lemma WriterStepInv(s: State, w: Writer, a: WriterAction)
    requires Inv(s) && s.writer == Some(w) && s.latest in s.snaps && |s.metas| == 2 && w.next >= 2
    requires WriterEnabled(s, w, a)
    ensures Inv(ApplyWriter(s, w, a))
  {
    hide Inv, EditOk, SaveDone, LatestRecords;
    match a {
      case WritePage(p) => WritePageInv(s, w, p, ApplyWriter(s, w, a));
      case Sync => SyncInv(s, w, ApplyWriter(s, w, a));
      case WriteMeta => CommitInv(s, w, ApplyWriter(s, w, a));
      case Abort => AbortInv(s);
      case _ => RunningStep(s, w, a);
    }
  }

  lemma InitInv()
    ensures Inv(InitState())
  {
    var s := InitState();
    assert forall t: nat :: Live(s, t) ==> t == 0;
    assert Span(2, 0) == {};
  }

  // ---------------------------------------------------------------- what the invariant gives

  lemma InvFacts(s: State)
    requires Inv(s)
    ensures MetasOk(s) && |s.metas| == 2 && s.latest in s.snaps && s.snaps[s.latest].next >= 2
    ensures s.metas[PickMeta(s.metas)] == MetaOf(s.latest, s.snaps[s.latest])
    ensures s.metas[s.latest % 2] == MetaOf(s.latest, s.snaps[s.latest])
    ensures forall t :: t in s.snaps ==> t <= s.latest
  {
    hide SnapIntact, SnapPages, RecordsOk, WriterOk, Oldest, Live;
    PickIsLatest(s);
  }

  lemma LiveFacts(s: State, t: nat)
    requires Inv(s) && Live(s, t)
    ensures t in s.snaps
    ensures TreesOk(s.disk, s.snaps[t].free, s.snaps[t].main)
    ensures TreesOk(s.stable, s.snaps[t].free, s.snaps[t].main)
  {
    hide SnapPages, RecordsOk, WriterOk, Oldest, Live, TreesOk, MetasOk;
  }

  lemma WriterFacts(s: State)
    requires Inv(s) && s.writer.Some?
    ensures s.latest in s.snaps && WriterOk(s, s.writer.value)
  {
    hide SnapIntact, SnapPages, RecordsOk, WriterOk, Oldest, Live, MetasOk;
  }

  lemma RecordsFacts(s: State)
    requires Inv(s)
    ensures s.latest in s.snaps && ListsApart(LatestRecords(s)) && s.snaps[s.latest].next >= 2
    ensures forall t :: t in LatestRecords(s) ==> t > 0
    ensures ListedAbove(LatestRecords(s), 0) !! SnapPages(s.snaps[s.latest])
    ensures ListedAbove(LatestRecords(s), 0) + SnapPages(s.snaps[s.latest]) == Span(2, s.snaps[s.latest].next - 2)
  {
    hide SnapIntact, SnapPages, WriterOk, Oldest, Live, MetasOk, LatestRecords, ListsApart, ListedAbove, Span;
    LatestLive(s);
    BaseApart(s);
    ListedApartFrom(LatestRecords(s), 0, SnapPages(s.snaps[s.latest]));
  }

  // ---------------------------------------------------------------- lists without repeats

  lemma {:induction false} AtMostOnce(s: seq<nat>, x: nat)
    requires NoRepeats(s)
    ensures multiset(s)[x] <= 1
  {
    if s != [] {
      assert s == [s[0]] + s[1..];
      forall i, j | 0 <= i < j < |s[1..]| ensures s[1..][i] != s[1..][j] { assert s[i + 1] != s[j + 1]; }
      AtMostOnce(s[1..], x);
      forall j | 0 <= j < |s| - 1 ensures s[1..][j] != s[0] { assert s[1..][j] == s[j + 1]; }
    }
  }
}
