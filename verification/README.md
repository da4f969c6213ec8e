# LMDB: lists, pages, B+tree and transactions

A model of LMDB 0.9.14 as bundled in `LegacyDatabase/` (`mdb.c`, `midl.c`, `midl.h`), in four layers that use each other.

* **ID lists.** `Idl`, `IdlSort`, `IdlPages` and `IdlGrow` work in place on arrays with the count in slot 0: search, merge,
  sort with an explicit stack, runs of page numbers, growth. `DirtyList` is the ascending list of dirty pages and what a
  nested commit does to it and to the spill list.
* **Pages and the B+tree.** `SlottedPages` is a page as bytes: pointer table, nodes, free space. `Split` chooses split
  points and deals out nodes. `BTree`, `BTreePut` and `BTreeDel` are the tree operations as functions from tree to tree,
  and `BTreeSteps` says of them, without naming them, what each page on the path of the key becomes; `CursorPath` and `Cursors` are the cursor stack over a tree, the latter as a class.
* **Environment.** `Pages` and `Forest` are page numbers, the file they are read from, and the trees that roots name in it.
  `Mvcc` is a state machine: readers, one writer, two meta pages, the freeDB, a file and the part of it that survives a
  crash. `MvccProof` proves its invariant, `MvccRuns` what follows for whole runs.
* **Code as runs of that machine.** `Env` (reader table, page allocator), `TreeEdits` and `Txn` (touch, merge, split, free,
  drop), `FreelistSave` and `FreelistRun` (saving the freelist) and `Commit` (flush, sync, meta page) follow the code. The
  methods of `Env`, `Txn` and `Commit` also return a trace and prove that every step of it is one the machine allows; the
  records that `FreelistRun` leaves are proved to be what the machine asks for. That pages are copied before they are
  written, and that pages which leave a tree are accounted for, is a conclusion there. `NewEnvironment` puts them
  together for the first commit of an empty file. `Copy` is the compacting copy.

Keys are integers ranked by the comparison function, with a size each; a page's bytes appear in `SlottedPages` only.
Two things are assumed of the platform. A read transaction's start is one step: the source reads the last transaction ID
and then stores it in its slot (mdb.c:2547) with no second look. The meta page's write is one step, and the new last
transaction ID is published with it.

Results that go against what one might expect of the source:

* A put can fail on a well-formed database (`BTreePut.PutCanFail`): when the test at mdb.c:8036 is false the split is in the
  middle without a look at sizes, and the half with the new node can overflow. `Split.MiddleSplitFits` and
  `BTreePut.PutFailsExactly` say when; nodes above a sixteenth of a page never fail (`BTreePut.LargeNodesNeverFail`).
* The comment at midl.h on the search result is for ascending lists; on the descending lists of this version the result is
  the first position whose ID is not larger (`Idl.Search`).
* The root number predicted by the compacting copy is right exactly when the main database is not empty (`Copy.CopyMain`).

## Model

| member | source | states |
|---|---|---|
| Idl.Search | LegacyDatabase/midl.c:32-63 | every ID before the result is larger and every smaller one is at or after it; the ID is present exactly when it stands at the result; without repeats the result counts the larger IDs |
| Idl.XMerge | LegacyDatabase/midl.c:202-214 | the list becomes the merge of both; the second list may lie in the tail of the same allocation |
| Idl.MergeMultiset | LegacyDatabase/midl.c:202-214 | a merge has every element of both lists as often as they have it together |
| Idl.MergeDescending | LegacyDatabase/midl.c:202-214 | the merge of descending lists is descending |
| Idl.MergeStrict | LegacyDatabase/midl.c:202-214 | the merge of disjoint strictly descending lists is strictly descending |
| IdlSort.Sort | LegacyDatabase/midl.c:221-280 | the list becomes a descending permutation of itself, slots outside it keep their values, and scans and stack stay inside their arrays |
| IdlGrow.IdList.Need | LegacyDatabase/midl.c:144-156 | the list is as before and has room for num more IDs; nothing is allocated if it had, else room for a quarter more in whole blocks of 256 words |
| IdlGrow.IdList.Append | LegacyDatabase/midl.c:158-170 | the ID is appended; only a full list grows, by MDB_IDL_UM_MAX |
| IdlGrow.IdList.AppendList | LegacyDatabase/midl.c:172-184 | the other list is appended; the allocation grows by its length exactly when no slot would be left over |
| IdlGrow.IdList.AppendRange | LegacyDatabase/midl.c:186-200 | the run of page numbers is appended, highest first; the allocation grows only when it must, to the run's length with all low bits set |
| IdlPages.OneTestSuffices | LegacyDatabase/mdb.c:2006-2018 | on a strictly descending list one comparison holds exactly when num consecutive pages end at a position |
| IdlPages.FindRun | LegacyDatabase/mdb.c:2006-2018 | the search from the tail finds the last position at which a run ends, or there is none |
| IdlPages.RemoveRun | LegacyDatabase/mdb.c:2110-2117 | compaction leaves the list without the run |
| IdlPages.WithoutRunExact | LegacyDatabase/mdb.c:2110-2117 | exactly the allocated pages leave the list, all of them were in it, and it stays strictly descending |
| IdlPages.InsertRun | LegacyDatabase/mdb.c:5237-5244 | the in-place loop puts the run where its first page number belongs |
| IdlPages.InsertRunIsMerge | LegacyDatabase/mdb.c:5237-5244 | for pages not listed, the list with the run put in is the merge of the list and the run |
| DirtyList.Search | LegacyDatabase/midl.c:282-315 | exactly the entries before the result have a smaller page number |
| DirtyList.Insert | LegacyDatabase/midl.c:317-346 | the list stays ascending with the entry added; -1 exactly for a duplicate, else -2 exactly when full, and then nothing changes |
| DirtyList.MergedLength | LegacyDatabase/mdb.c:3291-3305 | the length counted beforehand is the length of the union |
| DirtyList.MergeInto | LegacyDatabase/mdb.c:3309-3319 | the parent's list becomes the union in place and the freed pointers are its copies of common pages, highest page first |
| DirtyList.CopiesExact | LegacyDatabase/mdb.c:3309-3319 | for ascending lists these are exactly the parent's entries whose page number the child has too, each once |
| DirtyList.UnionMembers | LegacyDatabase/mdb.c:3309-3319 | an entry is in the union exactly when the child has it, or the parent has it and the child has no entry of that number |
| DirtyList.UnionAscending | LegacyDatabase/mdb.c:3309-3319 | the union of ascending lists is ascending |
| DirtyList.SquashSpill | LegacyDatabase/mdb.c:3270-3289 | the parent's spill list loses exactly the live entries of pages that the child dirtied, gains none and stays strictly descending |
| DirtyList.SquashMembers | LegacyDatabase/mdb.c:3270-3289 | an entry stays in the squashed list exactly when it is not marked deleted and its page is not dirty in the child |
| SlottedPages.SlottedPage.NodeAdd | LegacyDatabase/mdb.c:6708-6829 | exactly when there is room a node is inserted at the index among the old ones, and reading its bytes back gives the key and, on a branch, the page number, on a leaf the data size, the flags and the data, or the overflow page exactly when that was asked for or the node exceeds me_nodemax; else no byte changes |
| SlottedPages.SlottedPage.PageNumber | LegacyDatabase/mdb.c:836-838 | the number put together from the header bytes is the one that the branch node at the index says |
| SlottedPages.NewNodeSays | LegacyDatabase/mdb.c:840-848 | the header words as they are stored read back as the page number, or as data size and flags, and the node takes the even-rounded space that was asked for |
| SlottedPages.SaysOne | LegacyDatabase/mdb.c:6708-6829 | what is read back from a node leaves no choice of its bytes |
| SlottedPages.SlottedPage.NodeDel | LegacyDatabase/mdb.c:6836-6886 | the node at the index leaves the page, every other node keeps its bytes and its order |
| SlottedPages.SlottedPage.UpdateKey | LegacyDatabase/mdb.c:7191-7226 | the key at the index is replaced and the node's data are kept, exactly when there is room; else no byte changes |
| SlottedPages.SlottedPage.Conservation | LegacyDatabase/mdb.c:6708-6886 | free space, even-rounded node sizes and pointers add up to the page without its header |
| Split.FindSplit | LegacyDatabase/mdb.c:7993-8066 | the scan loop returns the split point: for a new last node the longest left page that fits with two nodes left over, the middle for many nodes and a small new one, else the longest half on the side of the new node up to one past the middle |
| Split.SplitPointIs | LegacyDatabase/mdb.c:8030-8066 | the split point that the following rows speak of is the one so described |
| Split.SplitPointOne | LegacyDatabase/mdb.c:8030-8066 | there is only one such point |
| Split.ScannedSplitFits | LegacyDatabase/mdb.c:8013-8066 | on the size-scan path, nodes of at most half a page that overflow one page are split into two non-empty pages that fit; on a branch the right page's first key is blanked |
| Split.MiddleSplitFits | LegacyDatabase/mdb.c:8036-8066 | off the scan path both pages fit exactly when the half of the old page that takes the new node has room for it |
| Split.MiddleSplitCanOverflow | LegacyDatabase/mdb.c:8036-8066 | there are 21 nodes of at most half a page, the old ones fitting one page, for which the middle split overflows |
| Split.TwoOnEachSide | LegacyDatabase/mdb.c:7993-8066 | with nodes of at most a quarter page every split leaves two nodes on each side |
| Split.HalfPageNodesLeaveOne | LegacyDatabase/mdb.c:7993-8066 | with half-page nodes a split can leave one node alone |
| Split.Distribute | LegacyDatabase/mdb.c:8067-8187 | dealing out through the pointer table while it is overwritten gives left and right that together are the old nodes with the new one inserted; the separator is right's first node before its key is blanked |
| BTreePut.PutRefinesMap | LegacyDatabase/mdb.c:6063-6483 | a put that succeeds gives a well-formed database whose map is the old one with key := data, entry, depth and page counts equal to the real ones |
| BTreePut.PutStores | LegacyDatabase/mdb.c:6317-6393 | a put that succeeds changes no entry but the key's, and the value is on an overflow page exactly when a reusable overflow run was there, or when neither that nor a value of the same length beside the key was and the node exceeds me_nodemax |
| BTreePut.PutFailsExactly | LegacyDatabase/mdb.c:7878-8211 | on a well-formed database a put fails exactly when a page on the search path refuses: the leaf the new node, or a branch the separator of a page split below it |
| BTreePut.LeafFullExactly | LegacyDatabase/mdb.c:8036-8211 | a leaf refuses a node exactly when it must split blindly in the middle and the half with the new node has no room |
| BTreePut.BranchFullExactly | LegacyDatabase/mdb.c:8036-8211 | the same for a branch and a separator, the right page's first key being blanked |
| BTreePut.LargeNodesNeverFail | LegacyDatabase/mdb.c:8036-8066 | if the new node and every separator exceed a sixteenth of a page, the put succeeds |
| BTreePut.PutCanFail | LegacyDatabase/mdb.c:8036-8066 | there is a well-formed database of one leaf on which a put of an allowed node fails |
| BTreePut.HasKeyIsPresent | LegacyDatabase/mdb.c:4802-4891 | searching down the tree finds a key exactly when it is among the tree's entries |
| BTreeSteps.PutExactly | LegacyDatabase/mdb.c:6393-8211 | the tree after a put that succeeds is the one that the law of PutAlong names: the leaf takes the entry and a page is cut, exactly if it has become too large and at the split point, its separator going up; a cut root gets a new root above it |
| BTreeSteps.PutAlongOne | LegacyDatabase/mdb.c:6393-8211 | on a well-formed tree one outcome of a put meets that law |
| BTreeDel.DeleteRefinesMap | LegacyDatabase/mdb.c:7236-7800 | not found only for an absent key; a delete that succeeds gives a well-formed database, all leaves at one depth and two children per branch, whose map lost just that key, with counts equal to the real ones; the case left out never arises with keys of one size |
| BTreeDel.RepairPairOk | LegacyDatabase/mdb.c:7575-7743 | borrowing from or merging with a neighbour keeps the entries in order, the separators bounding and the fill of both pages |
| BTreeDel.DeleteUnmodelledExactly | LegacyDatabase/mdb.c:7191-7204 | the case left out arises exactly when, on the search path, a parent has no room for the separator that a borrow moves into it |
| BTreeSteps.DeleteExactly | LegacyDatabase/mdb.c:7575-7743 | the tree after a delete is the one that the law of DelAlong names: a page left under a quarter full or short of keys takes a node from the neighbour looked at if that has one to spare, else the two are merged and their parent is looked at; the page count falls by one for each merge and one for a root emptied or collapsed |
| BTreeSteps.DelAlongOne | LegacyDatabase/mdb.c:7575-7743 | on a well-formed tree one outcome of a delete meets that law |
| CursorPath.RightNeighbour | LegacyDatabase/mdb.c:5315-5362 | the next leaf to the right starts where this one's entries end, and there is none exactly at the end of the entries |
| CursorPath.LeftNeighbour | LegacyDatabase/mdb.c:5315-5362 | the next leaf to the left ends where this one's entries start, and there is none exactly at the beginning |
| CursorPath.DescendReaches | LegacyDatabase/mdb.c:5006-5070 | the descent reaches a leaf at full depth; first and last descents reach the first and last entries |
| CursorPath.SearchRank | LegacyDatabase/mdb.c:5006-5070 | the leaf the search ends on and the slot in it give the rank at which the key stands or belongs among all entries |
| CursorPath.StaysOnLeaf | LegacyDatabase/mdb.c:5524-5710 | a key between a leaf's first and last key, or above it on the right edge, is searched to that leaf |
| CursorPath.RankIsPlace | LegacyDatabase/mdb.c:5315-5521 | two leaf positions of equal rank are the same position |
| Cursors.DeepTreesAreLarge | LegacyDatabase/mdb.c:4926-4947 | a tree with two children per branch and height h has at least 2^h leaves, so a full cursor stack needs 2^32 of them |
| Cursors.Cursor.Sibling | LegacyDatabase/mdb.c:5315-5362 | the stack moves to the neighbouring leaf at its near end exactly when there is one; each page stays the child its parent's index names; a failed move leaves the stack unchanged |
| Cursors.Cursor.PageSearch | LegacyDatabase/mdb.c:5105-5177 | a fresh search puts the stack on the descent's path exactly when the database is not empty |
| Cursors.Cursor.First | LegacyDatabase/mdb.c:5713-5754 | the cursor stands on the first entry exactly when there is one |
| Cursors.Cursor.Last | LegacyDatabase/mdb.c:5757-5800 | the cursor stands on the last entry, with its end mark set, exactly when there is one |
| Cursors.Cursor.Next | LegacyDatabase/mdb.c:5365-5443 | the cursor moves to the entry of the next rank exactly when there is one and its end mark is not set; else it stays and the mark is set |
| Cursors.Cursor.Prev | LegacyDatabase/mdb.c:5446-5521 | the cursor moves to the entry of the previous rank exactly when there is one; else nothing changes |
| Cursors.Cursor.Set | LegacyDatabase/mdb.c:5524-5710 | from any valid position the shortcuts give the entry, the not-found answer and the insertion slot of a fresh search from the root |
| Cursors.Cursor.ReadAll | LegacyDatabase/mdb.c:5365-5443 | repeated next reads every entry once, in ascending key order |
| Pages.StoredUnique | LegacyDatabase/mdb.c:4951-4996 | root page numbers and a file determine the trees that are read |
| MvccProof.StepInv | LegacyDatabase/mdb.c:1957-2127 | every step keeps the invariant: live snapshots intact in map and on disk, no page of freeDB record t in a live snapshot as young as t, every page in one place |
| MvccRuns.RunMonotone | LegacyDatabase/mdb.c:2020-2045 | over any run committed snapshots never change and neither the last transaction ID nor the oldest live snapshot decreases, so an out-of-date oldest reader is a safe bound |
| MvccRuns.SnapshotIsolation | LegacyDatabase/mdb.c:2485-2600 | a reader that started at transaction t reads from t's meta page, at any later state of any run, exactly the trees that t committed |
| MvccRuns.WriterPagesPrivate | LegacyDatabase/mdb.c:1957-2127 | pages allocated to the writer or held for it are in no snapshot that a reader or a meta page names |
| MvccRuns.CrashAtomicity | LegacyDatabase/mdb.c:3678-3682 | whatever unsynced writes are lost at any state of any run, the meta page a restart picks is the last commit's and reads exactly its trees |
| MvccRuns.OnlyMetaWriteCommits | LegacyDatabase/mdb.c:3557-3672 | no other step changes the meta pages or the last transaction ID |
| MvccRuns.MetaWriteCommits | LegacyDatabase/mdb.c:3557-3672 | the meta write makes the other page the one to trust, naming the writer's trees, and leaves the old one as it was |
| MvccRuns.AuditEquation | LegacyDatabase/mdb.c:1505-1559 | in every state of every run the last commit's listed pages, both trees' page counts and the two meta pages add up to its first unused page |
| MvccRuns.ConservationInTxn | LegacyDatabase/mdb.c:1957-2127 | in every state of every run the pages below mt_next_pgno split without overlap into tree pages, pages just allocated, unfetched freeDB records, me_pghead, mt_free_pgs and loose pages |
| Env.FindOldest | LegacyDatabase/mdb.c:1904-1922 | the scan gives the smallest ID in the reader table, or the last transaction ID |
| Env.PickNewest | LegacyDatabase/mdb.c:3678-3682 | the meta page picked has the larger transaction ID |
| Env.RunExtended | LegacyDatabase/mdb.c:1957-2127 | a trace of the code from the last state of a run is more of the run, so the results on runs hold of it |
| Env.Environment.BeginReader | LegacyDatabase/mdb.c:2510-2560 | the first free slot takes the last transaction ID |
| Env.Environment.EndReader | LegacyDatabase/mdb.c:2779-2832 | the slot is free again |
| Env.Environment.Gather | LegacyDatabase/mdb.c:1985-2090 | it finds what the search of the list and the records has to find, and fetches the records that this takes and no more, each a step of the machine |
| Env.SearchedInVain | LegacyDatabase/mdb.c:2006-2018 | that search ends with the last run in the list it has made, or with none: then no run of num pages ends anywhere in it, and the retries are used up or no record older than every reader is left |
| Env.SearchedNoFurther | LegacyDatabase/mdb.c:2000-2090 | the list it ends with is the one at hand with the next records merged in one after the other, and none is fetched once the list has a run |
| Env.OnePageInVain | LegacyDatabase/mdb.c:2006-2018 | for one page it ends with none only if the list is empty and every record older than every reader is fetched |
| Env.Environment.PageAlloc | LegacyDatabase/mdb.c:1957-2127 | the answer is the first loose page for a single page; else the dirty list is full; else the run found, which leaves the list; else the end of the file, or a full map, only if none was found; the pages are in no live snapshot and were not in hand, as a run |
| Env.Environment.LooseToHead | LegacyDatabase/mdb.c:3003-3023 | me_pghead becomes the strictly descending list of its pages and the loose ones, which are merged from the tail of its own allocation |
| Forest.PutDistinct | LegacyDatabase/mdb.c:2219-2286 | exchanging a subtree exchanges exactly its pages and uses none twice |
| Forest.PutStored | LegacyDatabase/mdb.c:2241-2252 | writing the new subtree and its parent's page is enough for the whole forest to be readable |
| TreeEdits.PageEdit | LegacyDatabase/mdb.c:2219-2286 | a subtree exchanged with its pages and the hand's accounted for makes an edit the state machine allows |
| TreeEdits.MergedContent | LegacyDatabase/mdb.c:7442-7484 | merging siblings keeps the contents in order |
| Txn.WriteTxn.PageTouch | LegacyDatabase/mdb.c:2219-2286 | a dirty top page is left alone; a clean one is copied to the page that the allocator answers, outside all trees, its number is freed and its parent or the root renamed; it fails only when the allocator does, and then nothing changes; the contents stay, as a run |
| Txn.WriteTxn.Combine | LegacyDatabase/mdb.c:7442-7514 | the destination takes its right neighbour's nodes, the parent forgets it, and its page is loose if dirty and not the freeDB's, else freed; contents stay, as a run |
| Txn.WriteTxn.MergePages | LegacyDatabase/mdb.c:7420-7514 | the same with the destination touched first, failing only when that does; both pages given up are loose or freed as the source tests |
| Txn.WriteTxn.PageNew | LegacyDatabase/mdb.c:6616-6641 | the answer is the allocator's; its pages were in no tree and not in hand; trees, dirty pages and freed pages stay, as a run |
| Txn.WriteTxn.FirstLeaf | LegacyDatabase/mdb.c:6116-6130 | a page of the hand becomes the root leaf of an empty database, as a run |
| Txn.WriteTxn.AddOverflow | LegacyDatabase/mdb.c:6753-6775 | a run of the hand becomes an overflow page of the dirty leaf, as a run |
| Txn.WriteTxn.SplitChild | LegacyDatabase/mdb.c:8067-8211 | a page of the hand takes the split-off nodes and children and stands right of the old page in the parent, as a run |
| Txn.WriteTxn.NewRoot | LegacyDatabase/mdb.c:7909-7933 | an allocated page becomes the root above the old one, as a run |
| Txn.WriteTxn.CollapseRoot | LegacyDatabase/mdb.c:7632-7648 | the only child of the root takes its place and the root's page is freed; contents stay, as a run |
| Txn.WriteTxn.FreeOverflow | LegacyDatabase/mdb.c:5179-5252 | a dirty overflow run goes back into me_pghead if there is one and off the dirty list, any other is freed, as a run |
| Txn.WriteTxn.DropTree | LegacyDatabase/mdb.c:9152-9232 | every page of the database is freed, each once, and its root is invalid, as a run |
| Txn.WriteTxn.FreeLoose | LegacyDatabase/mdb.c:2889-2900 | the loose pages are freed and their list is empty, as a run |
| Txn.WriteTxn.ReadyToSave | LegacyDatabase/mdb.c:2866-3053 | when the freeDB holds the saved records and nothing is left in hand, the step that ends the freelist's saving is allowed |
| FreelistSave.Reserve | LegacyDatabase/mdb.c:2906-3001 | when puts leave the lists alone the reservation ends, with keys from 1 to me_pglast, room for exactly the pages there are and every record but the lowest filling whole pages |
| FreelistSave.Fill | LegacyDatabase/mdb.c:3025-3051 | the chunks stored, read from the highest key down, are exactly me_pghead, each but the last written fills its record, and every borrowed slot is restored |
| FreelistRun.FreelistSaver.Save | LegacyDatabase/mdb.c:2866-3053 | whatever each put and delete does to the lists, success leaves records up to me_pglast that hold me_pghead and the loose pages, this transaction's record with the pages it freed, and the records between untouched, no page of the lists as the last call left them lost; it fails only when the effects supplied run out, and 2 * me_pglast + 2 that leave the lists alone are enough |
| FreelistRun.FreelistSaver.ReserveMore | LegacyDatabase/mdb.c:2965-3000 | the key goes down only from a record that fills its pages; the record gets what is missing if that fits a page or the key is 1, else the fewest whole pages that hold its even share; and one put less is left to do |
| FreelistRun.GatherApart | LegacyDatabase/mdb.c:3025-3051 | if the records together list no page twice then no record does and no two records share one |
| FreelistRun.SavedIsDone | LegacyDatabase/mdb.c:2866-3053 | such records make all that the commit needs of the freeDB, no page listed twice in particular |
| Commit.Flush | LegacyDatabase/mdb.c:3060-3199 | every dirty page that is not loose is in the file and no other page changed; any prefix of the writes is a run |
| Commit.CommitTxn | LegacyDatabase/mdb.c:3384-3400 | from the saved freelist to the new meta page, on the side given by the transaction ID's low bit; all is on stable storage and no earlier state has the new commit |
| Commit.CrashOnTheWay | LegacyDatabase/mdb.c:3060-3199 | at every state of a trace, after the loss of any unsynced writes, the trees of that state's last commit are intact and are what a restart reads |
| NewEnvironment.FirstCommit | LegacyDatabase/mdb.c:3202-3421 | begin, first put and commit on a new environment: a run at whose end the second meta page is the newer one and reads exactly the leaf written |
| Copy.Walk | LegacyDatabase/mdb.c:8394-8549 | the pages appended hold the same tree, overflow pages and nested databases under their new numbers, as many as the tree has, the root last |
| Copy.CommitAddsUp | LegacyDatabase/mdb.c:8613-8632 | in every state of every run the last commit's pages are two meta pages, those counted as free and those of the main database |
| Copy.CopyMain | LegacyDatabase/mdb.c:8551-8660 | the copy holds the main database behind two meta pages, and the predicted root is the root exactly when the database is not empty |

## Left out

- BTreeDel.DeleteRefinesMap: does not cover a borrow whose new separator does not fit the parent, where the source splits the parent by way of a put (mdb.c:7198-7204); `BTreeDel.DeleteUnmodelledExactly` says when that happens.
- BTreePut.PutRefinesMap: the tree is a value and not pages changed in place; the page numbers of these operations are in `Txn`, their bytes in `SlottedPages`.
- Txn.WriteTxn.SplitChild: the caller gives the nodes that stay and those that go; how they are chosen is `Split` and `BTreePut`.
- Txn.WriteTxn.DropTree: levels are listed and read from the bottom up, without the cursor stack; sub-databases count as children of their leaf.
- FreelistRun.FreelistSaver.Save: puts and deletes are their effects on the record map and the lists, which the caller supplies; how many calls that do change the lists there can be is not bounded.
- Env.Environment.LooseToHead: the temporary list is sorted in an array of its own before it is put behind me_pghead.
- Cursors.Cursor.PageSearch: trees deeper than the 32 pages of the stack; `Cursors.DeepTreesAreLarge` bounds their size from below.
- Cursors.Cursor.Set: after a not-found answer by a shortcut the end mark may differ from the one a fresh search leaves.
- Env.Environment.PageAlloc: maps of 2^30 pages and more, the spilling of pages when the dirty list fills up, and the reader table's fixed size.
- Spilled pages: reading one back when it is touched, and marking entries of the spill list outside a nested commit.
- Nested transactions except for the two list operations of their commit: loose pages in them, the length of the dirty list when a single ancestor has room for it, and their abort.
- Page counters while pages are touched, merged and freed, and md_overflow_pages in particular; put and delete have the counts.
- Fix-up of other cursors on the same database.
- DUPSORT and sub-pages, LEAF2 pages, MDB_APPEND, MDB_MULTIPLE, and the check for empty keys.
- WRITEMAP, NOSYNC, NOMETASYNC and MAPASYNC, the repair after a failed meta write, and I/O and memory errors.
- Memory mapping, file and lock set-up, mutexes, process IDs of readers, and the copying thread's double buffer.
