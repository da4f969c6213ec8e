/** The environment as a state machine: readers, one writer, two meta pages, the freeDB and the page file. */
module Mvcc {
  import opened Pages

  datatype Option<T> = None | Some(value: T)

  /** What a committed transaction left: the freeDB tree, the main tree and the first unused page. */
  datatype Snap = Snap(free: seq<Tree>, main: seq<Tree>, next: nat)

  /** A meta page; an absent root (P_INVALID) is an empty list. */
  datatype Meta = Meta(txnid: nat, lastPg: int, freeRoot: seq<nat>, mainRoot: seq<nat>)

  /** Where the writer stands in its commit. */
  datatype Phase = Running | Saved | Synced

  datatype Writer = Writer(
    next: nat,              // mt_next_pgno
    mem: File,              // pages on the dirty list
    owned: set<nat>,        // every page allocated by this transaction
    hand: set<nat>,         // allocated but not yet linked into a tree
    freePgs: set<nat>,      // mt_free_pgs
    loose: set<nat>,        // mt_loose_pgs
    head: set<nat>,         // me_pghead
    last: nat,              // me_pglast
    free: seq<Tree>,        // the freeDB as this transaction sees it
    main: seq<Tree>,        // the main DB as this transaction sees it
    phase: Phase)

  datatype State = State(
    disk: File,                   // the file as the memory map shows it
    stable: File,                 // the part that survives a crash
    metas: seq<Meta>,             // the two meta pages
    latest: nat,                  // mti_txnid
    readers: seq<Option<nat>>,    // the reader table
    oldest: nat,                  // me_pgoldest, possibly out of date
    writer: Option<Writer>,
    snaps: map<nat, Snap>)        // history: what each transaction committed

  // ---------------------------------------------------------------- freeDB records

  /** The freeDB's records: transaction ID to list of page numbers. */
  function Records(es: seq<Entry>): map<nat, seq<nat>> {
    if es == [] then map[]
    else if es[0].val.PageList? then Records(es[1..])[es[0].key := es[0].val.pages]
    else Records(es[1..])
  }

  function FreeRecords(free: seq<Tree>): map<nat, seq<nat>> {
    Records(Content(free))
  }

  function Elems(s: seq<nat>): set<nat> {
    set p | p in s
  }

  /** The pages listed in records with a key above `last`. */
  function ListedAbove(recs: map<nat, seq<nat>>, last: nat): set<nat> {
    set t, p | t in recs && t > last && p in recs[t] :: p
  }

  /** The pages listed in records with a key of at most `last`. */
  function ListedUpTo(recs: map<nat, seq<nat>>, last: nat): set<nat> {
    set t, p | t in recs && t <= last && p in recs[t] :: p
  }

  ghost predicate NoRepeats(s: seq<nat>) {
    forall i, j :: 0 <= i < j < |s| ==> s[i] != s[j]
  }

  /** No page is listed twice. */
  ghost predicate ListsApart(recs: map<nat, seq<nat>>) {
    && (forall t :: t in recs ==> NoRepeats(recs[t]))
    && (forall t, u :: t in recs && u in recs && t != u ==> Elems(recs[t]) !! Elems(recs[u]))
  }

  // ---------------------------------------------------------------- live snapshots

  function SnapPages(s: Snap): set<nat> {
    Reach(s.free) + Reach(s.main)
  }

  /** A snapshot somebody may still read: held by a reader, or named by a meta page. */
  predicate Live(s: State, t: nat) {
    Some(t) in s.readers || (|s.metas| == 2 && (s.metas[0].txnid == t || s.metas[1].txnid == t))
  }

  /** The smallest transaction ID a reader holds, bounded by `top`. */
  function OldestReader(readers: seq<Option<nat>>, top: nat): (r: nat)
    ensures r <= top
    ensures forall t :: Some(t) in readers ==> r <= t
    ensures r == top || Some(r) in readers
  {
    if readers == [] then top
    else
      var r := OldestReader(readers[1..], top);
      if readers[0].Some? && readers[0].value < r then readers[0].value else r
  }

  function Oldest(s: State): nat {
    OldestReader(s.readers, s.latest)
  }

  /** Both trees can be read from the file, and no page is used twice. */
  ghost predicate TreesOk(d: File, free: seq<Tree>, main: seq<Tree>) {
    && Stored(d, free) && Stored(d, main)
    && Distinct(free) && Distinct(main) && Reach(free) !! Reach(main)
  }

  function MetaOf(t: nat, n: Snap): Meta {
    Meta(t, n.next - 1, Roots(n.free), Roots(n.main))
  }

  /** The meta page a reader or a restart would trust. */
  function PickMeta(metas: seq<Meta>): nat
    requires |metas| == 2
  {
    if metas[0].txnid < metas[1].txnid then 1 else 0
  }

  // ---------------------------------------------------------------- invariants

  /** A snapshot is intact in the map and on stable storage. */
  ghost predicate SnapIntact(disk: File, stable: File, n: Snap) {
    TreesOk(disk, n.free, n.main) && TreesOk(stable, n.free, n.main)
  }

  /** Meta page t & 1 holds transaction t; the two hold the last two commits. */
  ghost predicate MetasOk(s: State) {
    && |s.metas| == 2
    && s.metas[s.latest % 2].txnid == s.latest
    && s.metas[1 - s.latest % 2].txnid == (if s.latest == 0 then 0 else s.latest - 1)
    && (forall i :: 0 <= i < 2 ==>
          s.metas[i].txnid in s.snaps && s.snaps[s.metas[i].txnid].next >= 2
          && s.metas[i] == MetaOf(s.metas[i].txnid, s.snaps[s.metas[i].txnid]))
  }

  /** Everything a reader or a restart can reach is intact, in the map and on stable storage. */
  ghost predicate SnapsOk(s: State) {
    && s.latest in s.snaps
    && (forall t :: t in s.snaps ==> t <= s.latest && s.snaps[t].next >= 2)
    && (forall t: nat :: Live(s, t) ==> t in s.snaps)
    && (forall t: nat :: Live(s, t) ==> SnapIntact(s.disk, s.stable, s.snaps[t]))
    && (forall t: nat :: Live(s, t) ==> s.snaps[t].next <= s.snaps[s.latest].next)
    && (forall t: nat, p :: Live(s, t) && p in SnapPages(s.snaps[t]) ==> 2 <= p < s.snaps[t].next)
  }

  function LatestRecords(s: State): map<nat, seq<nat>>
    requires s.latest in s.snaps
  {
    FreeRecords(s.snaps[s.latest].free)
  }

  /** The freeDB of the last commit: no listed page is reachable from a live snapshot as young as the record,
      and listed and used pages make up the whole file. */
  ghost predicate RecordsOk(s: State)
    requires s.latest in s.snaps && s.snaps[s.latest].next >= 2
  {
    var recs := LatestRecords(s);
    && ListsApart(recs)
    && (forall t :: t in recs ==> 1 <= t <= s.latest)
    && (forall t: nat, u: nat :: t in recs && Live(s, u) && t <= u && u in s.snaps ==>
         Elems(recs[t]) !! SnapPages(s.snaps[u]))
    && ListedAbove(recs, 0) + SnapPages(s.snaps[s.latest]) == Span(2, s.snaps[s.latest].next - 2)
  }

  ghost predicate Shielded(s: State, pages: set<nat>)
  {
    forall t: nat :: Live(s, t) && t in s.snaps ==> pages !! SnapPages(s.snaps[t])
  }

  function View(d: File, mem: File): File {
    d + mem
  }

  function TreePages(w: Writer): set<nat> {
    Reach(w.free) + Reach(w.main)
  }

  /** The writer's pages: its trees are readable through its dirty list, it owns nothing a live snapshot uses,
      and every page of the file is in exactly one place. */
  ghost predicate WriterOk(s: State, w: Writer)
    requires s.latest in s.snaps
  {
    && TreesOk(View(s.disk, w.mem), w.free, w.main)
    && w.mem.Keys <= w.owned && w.hand <= w.owned && w.loose <= w.owned
    && Shielded(s, w.owned + w.head)
    && s.snaps[s.latest].next <= w.next
    && w.last <= s.latest
    && Parts(s, w)
    && (w.phase != Running ==> SaveDone(s, w))
    && (w.phase == Synced ==> SnapIntact(s.disk, s.stable, Snap(w.free, w.main, w.next)))
  }

  /** `whole` splits exactly, without overlap, into six sets. */
  ghost predicate Partition(tree: set<nat>, hand: set<nat>, listed: set<nat>, head: set<nat>, freed: set<nat>,
                            loose: set<nat>, whole: set<nat>) {
    && tree !! hand !! listed !! head !! freed !! loose
    && tree + hand + listed + head + freed + loose == whole
  }

  /** Page conservation inside the write transaction. Before the freelist is saved the freeDB still lists
      the base records above me_pglast; afterwards its own tree lists everything. */
  ghost predicate Parts(s: State, w: Writer)
    requires s.latest in s.snaps
  {
    && w.next >= 2
    && Partition(TreePages(w), w.hand, ListedAbove(LatestRecords(s), w.last), w.head, w.freePgs, w.loose,
                 Span(2, w.next - 2))
  }

  /** The freeDB tree as mdb_freelist_save leaves it. */
  ghost predicate SaveDone(s: State, w: Writer)
    requires s.latest in s.snaps
  {
    var recs := FreeRecords(w.free);
    var base := LatestRecords(s);
    && w.hand == {} && w.loose == {}
    && ListsApart(recs)
    && (forall t :: t in recs ==> 1 <= t <= s.latest + 1)
    && (forall t :: w.last < t <= s.latest ==> (t in recs <==> t in base) && (t in recs ==> recs[t] == base[t]))
    && ListedUpTo(recs, w.last) == w.head
    && ListedAbove(recs, s.latest) == w.freePgs
  }

  ghost predicate Inv(s: State) {
    && MetasOk(s) && SnapsOk(s) && RecordsOk(s)
    && s.oldest <= Oldest(s)
    && (s.writer.Some? ==> WriterOk(s, s.writer.value))
  }

  // ---------------------------------------------------------------- steps

  /** A change of the writer's trees and what becomes of the pages that leave them. */
  datatype TreeEdit = TreeEdit(free: seq<Tree>, main: seq<Tree>, mem: File, hand: set<nat>,
                               toFree: set<nat>, toLoose: set<nat>, toHead: set<nat>)

  datatype WriterAction =
    | Fetch(record: nat)                 // merge the next freeDB record into me_pghead
    | TakeLoose(page: nat)               // reuse a loose page
    | TakeHead(page: nat, num: nat)      // take a run from me_pghead
    | TakeNew(num: nat)                  // extend the file
    | Edit(edit: TreeEdit)               // touch, link, unlink, rewrite owned pages
    | ReturnLoose(toHead: set<nat>)      // empty the loose list into me_pghead or mt_free_pgs
    | WritePage(page: nat)               // spill or flush one dirty page
    | Save                               // the freelist has been saved
    | Sync
    | WriteMeta
    | Abort

  datatype Action =
    | BeginRead(slot: nat)
    | EndRead(slot: nat)
    | BeginWrite
    | RefreshOldest                      // me_pgoldest := mdb_find_oldest
    | Crash(lost: set<nat>)              // unsynced writes in `lost` vanish, then restart
    | Write(act: WriterAction)

  /** t is the first record after `last`. */
  ghost predicate NextRecord(recs: map<nat, seq<nat>>, last: nat, t: nat) {
    t in recs && last < t && forall u :: u in recs && last < u ==> t <= u
  }

  /** The pages that leave the trees are accounted for, and what is not owned is not changed. */
  ghost predicate EditOk(s: State, w: Writer, e: TreeEdit) {
    && TreesOk(View(s.disk, e.mem), e.free, e.main)
    && e.mem.Keys <= w.owned && e.toLoose <= w.owned && e.toHead <= w.owned && e.hand <= w.owned
    && (Reach(e.free) + Reach(e.main)) !! e.hand !! e.toFree !! e.toLoose !! e.toHead
    && Reach(e.free) + Reach(e.main) + e.hand + e.toFree + e.toLoose + e.toHead == TreePages(w) + w.hand
  }

  ghost predicate WriterEnabled(s: State, w: Writer, a: WriterAction)
    requires s.latest in s.snaps
  {
    match a
    case Fetch(t) => w.phase == Running && NextRecord(LatestRecords(s), w.last, t) && t < s.oldest
    case TakeLoose(p) => w.phase == Running && p in w.loose
    case TakeHead(p, num) => w.phase == Running && Span(p, num) <= w.head
    case TakeNew(num) => w.phase == Running
    case Edit(e) => w.phase == Running && EditOk(s, w, e)
    case ReturnLoose(toHead) => w.phase == Running && toHead <= w.loose
    case WritePage(p) => w.phase != Synced && p in w.mem
    case Save => w.phase == Running && SaveDone(s, w)
    case Sync => w.phase == Saved && forall p :: p in w.mem && p in TreePages(w) ==>
      p in s.disk && s.disk[p] == w.mem[p]
    case WriteMeta => w.phase == Synced && |s.metas| == 2
    case Abort => true
  }

  ghost predicate Enabled(s: State, a: Action) {
    match a
    case BeginRead(slot) => slot <= |s.readers| && (slot < |s.readers| ==> s.readers[slot] == None)
    case EndRead(slot) => slot < |s.readers|
    case BeginWrite => s.writer == None && s.latest in s.snaps
    case RefreshOldest => true
    case Crash(_) => |s.metas| == 2
    case Write(act) => s.writer.Some? && s.latest in s.snaps && WriterEnabled(s, s.writer.value, act)
  }

  function Restore(disk: File, stable: File, lost: set<nat>): File {
    (disk - lost) + (map p | p in stable && p in lost :: stable[p])
  }

  function WithWriter(s: State, w: Writer): State {
    s.(writer := Some(w))
  }

  ghost function ApplyWriter(s: State, w: Writer, a: WriterAction): State
    requires s.latest in s.snaps && WriterEnabled(s, w, a)
  {
    match a
    case Fetch(t) => WithWriter(s, w.(head := w.head + Elems(LatestRecords(s)[t]), last := t))
    case TakeLoose(p) => WithWriter(s, w.(loose := w.loose - {p}, hand := w.hand + {p}))
    case TakeHead(p, num) =>
      var run := Span(p, num);
      WithWriter(s, w.(head := w.head - run, hand := w.hand + run, owned := w.owned + run))
    case TakeNew(num) =>
      var run := Span(w.next, num);
      WithWriter(s, w.(next := w.next + num, hand := w.hand + run, owned := w.owned + run))
    case Edit(e) =>
      WithWriter(s, w.(free := e.free, main := e.main, mem := e.mem, hand := e.hand, freePgs := w.freePgs + e.toFree,
                       loose := w.loose + e.toLoose, head := w.head + e.toHead))
    case ReturnLoose(toHead) =>
      WithWriter(s, w.(loose := {}, head := w.head + toHead, freePgs := w.freePgs + (w.loose - toHead)))
    case WritePage(p) => s.(disk := s.disk[p := w.mem[p]])
    case Save => WithWriter(s, w.(phase := Saved))
    case Sync => WithWriter(s.(stable := s.disk), w.(phase := Synced))
    case WriteMeta =>
      var t := s.latest + 1;
      var n := Snap(w.free, w.main, w.next);
      s.(metas := s.metas[t % 2 := MetaOf(t, n)], latest := t, snaps := s.snaps[t := n], writer := None)
    case Abort => s.(writer := None)
  }

  ghost function Apply(s: State, a: Action): State
    requires Enabled(s, a)
  {
    match a
    case BeginRead(slot) =>
      if slot < |s.readers| then s.(readers := s.readers[slot := Some(s.latest)])
      else s.(readers := s.readers + [Some(s.latest)])
    case EndRead(slot) => s.(readers := s.readers[slot := None])
    case BeginWrite =>
      var n := s.snaps[s.latest];
      WithWriter(s, Writer(n.next, map[], {}, {}, {}, {}, {}, 0, n.free, n.main, Running))
    case RefreshOldest => s.(oldest := Oldest(s))
    case Crash(lost) =>
      var d := Restore(s.disk, s.stable, lost);
      s.(disk := d, stable := d, latest := s.metas[PickMeta(s.metas)].txnid, readers := [], oldest := 0, writer := None)
    case Write(act) => ApplyWriter(s, s.writer.value, act)
  }

  /** A freshly created environment: two meta pages of transaction 0, no trees, no readers. */
  function InitState(): State {
    var n := Snap([], [], 2);
    State(map[], map[], [MetaOf(0, n), MetaOf(0, n)], 0, [], 0, None, map[0 := n])
  }
}
