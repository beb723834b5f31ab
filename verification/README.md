# FerriteDB in Dafny

A model of FerriteDB's two storage stacks, and proofs about them.

**The live database** keeps a map in memory and makes it durable with a write-ahead log.
`LittleEndian`, `Checksum` and `WalFormat` are the bytes of the log; `WalMeaning` says which
orders of records are legal and what a log means, without running the reader; `WalLaws` writes the
bytes and the limits out, and says which files the reader accepts; `TransactionLog` is
what appending one transaction, or a part of one, means. `Wal` is the writer and the recovery
loop. `Database` is the database object with its transactions, checkpoints and opening;
`DatabaseModel` has the operations and their replay, and says what they come to key by key;
`Compaction` shows what a checkpoint writes and that it never grows the log; `DatabaseLaws` gives
what is refused, what a transaction costs and what a checkpoint writes in numbers; `DatabaseRuns` is the
system of a file, if there is one, with a durable and a not yet durable part, of what its name may
stand for again after a loss of power (a file that was replaced, or none), and of a process that
may or may not be running, and shows that every run of transactions, losses of power, openings and
checkpoints, from a directory without a log, behaves like an atomic, durable map;
`DatabaseHistory` says which transactions that map has in it, over whole runs.

**The page store** is a file of fixed pages with a free list threaded through them (`Pager`), a
buffer pool over it (`Replacer`, `PoolModel`, `BufferPool`; `ReplacerLaws` says what the two
policies prescribe, and `PoolClient` what the pool does for a client with fewer guards than
frames), slotted pages with records that may span pages (`SlottedLayout`, `SlottedPage`,
`SlottedCheck`, `Records`; `SlottedBytes` and `RecordBytes` write their bytes out; `RecordStore`
has all the records of a file together), and a B+tree. As the repository's README says, the live database does not use it.

The B+tree works on that pool. `TreeStore` is a client of the pool that holds at most three pages;
the bytes of every page of the tree are those of a node (`PageBytes`, `NodeLayout`,
`InternalLayout`, `NodeOps`; `NodeBytes` writes them out), and every other live page of the pager keeps its bytes, so that
several trees can share a file (`TreeShare`). `TreeModel` has those nodes and the invariant: all
leaves at one depth, separators rising, the keys of a child between its separators, parent
pointers right, the chain of leaves in key order. The invariant is made of local clauses over a
page, its parent and its neighbour on the chain; levels and key ranges are carried as proof-only
state. `TreeSplit`, `TreeMerge`, `TreeRoot`, `TreeBorrow` and `TreePending` show that each
structural change keeps it (borrowing is a merge followed by a split elsewhere); `TreeContents`
and `TreeLeaf` that it keeps the map; `TreeOrder` that the chain is the in-order sequence of
leaves and every page is reachable; `TreeSize` and `TreeSized` have the size policy under which no
page overflows; `TreeFit` the exact conditions under which an insert or a delete does overflow;
`TreeGrowth` the tree an insert leaves, with its page numbers, and `TreeShrink` the one a delete
leaves; `TreeLaws` what either does to the leaves and the page numbers, with every byte counted;
`TreeListing` what a scan lists, and `TreeEdges` what the leaves at both ends say. `BPlusTree` is the class with the search,
the splits that travel up, borrowing, merging, root collapse, scan and integrity check;
`BTreeRange` the range iterator and runs of operations. `TreeOverflow` has two verified methods
that call the modelled operations on a tree in a new file until one overflows (`TreeLimits` has
their sizes), `TreeEdgeRuns` two after which `first` or `last` gives nothing.

Keys are byte strings. `Rank` embeds them, in their lexicographic order, into the reals, so that
order on keys is order on numbers; `CompareIsRankOrder` and `CompareIsLex` justify it.

## Results

- *Database.* `RunRefines`: at any time in any run, opening the log gives the latest version of an
  atomic map or is refused as corrupt, never a part of a transaction. `RunShowsHistory`: that
  version is the map after some whole transactions in order: exactly the acknowledged ones that
  are safe, and otherwise only ones that failed with an I/O error of the log. `SafeExactly`: an
  acknowledged transaction is lost exactly when a loss of power brought back what the log's name
  had stood for before it, the directory not having been synced since. There are two ways: a file
  that a checkpoint replaced (`OldFileReturns`), and no file, when the log had just been created
  (`NewFileVanishes`); opening a log that is there syncs no directory unless a schema is stored.
  `SafeOnceSynced`: what was acknowledged while nothing could come back is never lost.
  `RecoveryOfPrefix` decides exactly which prefixes of a log are readable and what they mean, and
  `AcceptedExactly` which files are: those that hold records in a legal order, and no others. In
  the map the last operation on each key decides (`LastOperationDecides`, `HistoryDecides`).
  `CheckpointFits`: on a reachable database a checkpoint never fails for want of space.
- *Checksum.* It is FNV-1a (`ChecksumIs`). Any one changed byte of a record, or of its stored checksum, makes recovery fail.
- *B+tree.* `Insert`, `Delete`, `Get`, `Scan`, the iterator and `Len` are those of a finite map on
  every reachable tree, including trees with empty leaves and with internal pages that have one
  child, which deletes can produce; lists are in lexicographic order. A leaf is cut only when its
  bytes exceed the page, and left alone by a delete exactly when it keeps an entry and a third of
  the page or has no sibling (`InsertObeys`, `DeleteObeys`). Each operation leaves a tree that is determined by the one
  before, down to its page numbers. `RunTwo`: of two trees in one file each is the map of its own
  operations. `first` and `last`, which look at one leaf, are the least and the greatest key if
  and only if that leaf has an entry or the map is empty; it can be empty when the map is not
  (`FirstMisses`, `LastMisses`).
- *Page overflow.* Splits go by entry count and halves are rebuilt without a size check; a
  borrowed separator is written without one too. The advertised limits (4 KiB keys, 64 KiB values)
  do not prevent overflow: `InsertCanOverflow` and `DeleteCanOverflow` are verified methods that
  call the modelled operations on a new file. `Insert` and `Delete` overflow if and only if
  `InsertFits` and `DeleteFits` fail on the tree before the call, and a run is lost exactly at the
  first such operation (`RunOps`); under a policy that bounds entry and key sizes (`PolicyOk`),
  and with keys of one length for deletes (`EqualKeys`), they never do while page numbers last.
- *Pages and pins.* No operation of the tree holds more than three pages, and every one ends
  holding none; pages are deleted only when nobody holds them. So with three frames and one client
  neither `NoFreeFrame` nor `PagePinned` can occur (`Take`, `New`, `Delete` of `PageStore`). Each
  page number of the file is the header's, a page of the tree, another live page or on the free
  list, and only one of these, after every operation of every run (`PagesConserved`, `RunOps`).
- *Buffer pool.* `RunKeeps`: for any number of guard holders and any interleaving of the locked
  sections, the pool is a plain map of pages, pins are guards, a pinned page stays in its frame,
  and no page is written before the log it depends on. Every pin, hit or miss, is one use
  recorded with the policy, and the frame evicted is at any time the one that CLOCK or LRU-K
  prescribes for all the uses, evictions and deletions so far (`PinPage`, `NewPage`, `LruKIs`,
  `ClockIs`).
- *Slotted pages.* An insert fails for space exactly when holes and free bytes together are too
  few; every page produced passes validation, which accepts exactly the well-formed pages.
- *Records.* No two records share a page, so after any run of puts and deletes every record that
  was not deleted has its payload, although pages are recycled (`RunRecords`, `RunAndRead`). A
  delete of an id that names a piece of a record is accepted; unless the piece reads as a
  descriptor, it breaks that record and no other (`Remove`).
- *Pager.* The free list on disk is acyclic and, with the live pages, partitions the file. The
  pager accepts freeing a free page and writing over one, and it has a list afterwards exactly
  when `Free` was given a page that was not free, and `WritePage` kept the link.

## Reading the model

Methods follow the functions of the source and are proved against functions and predicates of the
old state. Each section of the pool that holds its lock is one atomic step. What the environment
decides (room on the device, whether a sync, a rename or the log hook succeeds) is a parameter or
a field. A rename, or the creation of the log, takes effect at once, and may be undone by a loss
of power until the directory has been synced. `Overflow` is the outcome of an insert or delete
that rebuilt a page from more bytes than it has, where the program panics or leaves a page that
fails validation, or that found no page number left half-way; the model claims nothing more about
that tree but that it holds no page. The parameter `pol` is proof-only.

Where the comments of the source and its code differ, the model follows the code. The source
documents 4 KiB keys and 64 KiB values as allowable for B+tree entries; the code refuses larger
ones but cannot store every entry within them on a 4 KiB or 8 KiB page.

## Model

| member | source | states |
|---|---|---|
| `BPlusTree.OpenTree` | crates/ferrite-core/src/btree.rs:636-653 | Page 0 and a page beyond the end are refused, so is a page of the file that is of another type; the root of a tree in the pool gives that tree, valid, on the pool given, with its pages and page numbers as they were. |
| `TreeStore.PageStore.Look` | crates/ferrite-core/src/buffer_pool.rs:747-784 | A page of the file, of the tree or not, is pinned, locked, read and let go: its bytes are the page's, and nothing has changed. |
| `BPlusTree.CreateTree` | crates/ferrite-core/src/btree.rs:625-633 | In a pool with any other live pages: an empty root leaf on the next page of the pager, which stands for the empty map and keeps every size policy; refused exactly when there is no page number left. The other live pages keep their bytes. |
| `BPlusTree.BTree.Get` | crates/ferrite-core/src/btree.rs:667-683 | On every valid tree, returns exactly the value the map holds for the key, or none; an empty key, or one of more than 4096 bytes, is refused; every page it pinned is let go. |
| `BPlusTree.BTree.Insert` | crates/ferrite-core/src/btree.rs:740-761 | Unless it overflows, the tree is valid again, the map has the key bound to the value and nothing else changed, through any cascade of splits. A leaf whose bytes, 32 and 8 for each entry besides its key and value, are within the page is all that changes; otherwise it keeps the first half of its entries, the others are on the next page number and next on the chain, and no other leaf changes (`InsertLaw`). It overflows if and only if `InsertFits` fails on the tree and the page numbers left before; never under a size policy with a page for every level. Empty keys, keys over 4096 bytes and values over 65536 are refused and change nothing. However it ends, no page is held. |
| `BPlusTree.BTree.Delete` | crates/ferrite-core/src/btree.rs:935-969 | Returns true exactly when the key was present, and removes it and nothing else, through any cascade of borrows, merges and root collapse. A leaf that keeps an entry and a third of the page, or has no sibling, is all that changes; otherwise its sibling, the left one if there is one, lends it an entry if it has two and the entry fits, and no page number changes hands, or the two are merged, and the right one is given back (`DeleteLaw`). It overflows if and only if `DeleteFits` fails on the tree as it was before; never when all keys have one length and keep a size policy. However it ends, no page is held. |
| `TreeFit.InsertFitsAt` | crates/ferrite-core/src/btree.rs:763-916 | The condition under which an insert overflows, read off the leaf for the key and the way up: the leaf with the entry, or a page for the upper half, both halves by count and the separator they send up, at each level the same. The leaf, the position in it and the way up are determined by the tree. |
| `TreeGrowth.InsertedIs` | crates/ferrite-core/src/btree.rs:763-916 | What an insert leaves is one tree, determined by the tree and the page numbers before: which pages are cut where, what moves to which new page, and which separator goes up. |
| `TreeFit.DeleteFitsAt` | crates/ferrite-core/src/btree.rs:971-1406 | The condition under which a delete overflows: the leaf without the entry is not underfull, or what it borrows fits and so does the parent with the new separator, or the merge fits and the parent without a separator meets the same condition one level up. |
| `TreeShrink.DeletedIs` | crates/ferrite-core/src/btree.rs:971-1406 | What a delete leaves is one tree, determined by the tree before: which leaf lends or is merged, which separators change or go, at each level, whether the root goes, and in which order pages are freed. |
| `TreeLaws.InsertObeys` | crates/ferrite-core/src/btree.rs:740-816 | An insert that does not overflow follows `InsertLaw`, which speaks of leaves, byte counts and page numbers alone. |
| `TreeLaws.DeleteObeys` | crates/ferrite-core/src/btree.rs:935-1176 | A delete that does not overflow follows `DeleteLaw`, likewise. |
| `TreeLaws.SeparatorRaised` | crates/ferrite-core/src/btree.rs:853-916 | A separator sent up is in its slot of the parent, when the bytes fit; otherwise the parent keeps the first half of its separators, the next page number gets those after the middle one with its child first, and that one goes up. |
| `TreeLaws.EntryLost` | crates/ferrite-core/src/btree.rs:1178-1267 | An internal page that lost a separator: a root without any gives way to its only child and is given back; a page with a third of its bytes stays; one with fewer takes a child from its left sibling, or else its right one, if that has a separator, and is merged with it otherwise, and the right one of both is given back. |
| `TreeLaws.LeafBytesDecide` | crates/ferrite-core/src/btree.rs:399-411 | A leaf fits when 32 and, for each entry, 8, its key and its value are within the page, and is underfull when it is empty or they are less than a third of it. |
| `TreeLaws.InternalBytesDecide` | crates/ferrite-core/src/btree.rs:588-600 | An internal page likewise, with 24 and, for each separator, 12 and its key. |
| `TreeFit.PathStays` | crates/ferrite-core/src/btree.rs:818-862 | A change below a page leaves the pages and siblings on its way to the root as they were, so the condition can be evaluated before the change. |
| `TreeOverflow.InsertCanOverflow` | crates/ferrite-core/src/btree.rs:782-786 | The advertised limits do not suffice: a verified method that calls the modelled insert three times on a tree in a new file, each time within the limits and with an entry smaller than a page; the third overflows, because the upper half by count does not fit. |
| `TreeOverflow.DeleteCanOverflow` | crates/ferrite-core/src/btree.rs:1069-1074 | A delete can overflow too: seven modelled inserts on a tree in a new file, and a delete that empties a leaf, which borrows an entry whose key is too long to replace the separator in the parent. |
| `TreeLimits.TooLargeNeverFits` | crates/ferrite-core/src/btree.rs:306-319 | An entry larger than a page can never be inserted: neither the leaf nor one of the halves by count would fit. |
| `TreeSize.HalvesFit` | crates/ferrite-core/src/btree.rs:770-786 | With item sizes in [lo, hi] and hi * ceil(hi / lo) within the page, cutting an overfull sequence in the middle gives two non-empty parts that fit, one item having been too much. |
| `TreeSize.LeafHalvesFit` | crates/ferrite-core/src/btree.rs:763-816 | Under a size policy a leaf split by count gives two non-empty leaves that fit. |
| `TreeSize.InternalHalvesFit` | crates/ferrite-core/src/btree.rs:864-916 | Under a size policy both sides of an internal split by count fit. |
| `TreeSized.UnderfullTakesEntry` | crates/ferrite-core/src/btree.rs:958-967 | A leaf below a third of the page, or empty, has room for one more entry of the policy. |
| `TreeSized.UnderfullTakesSep` | crates/ferrite-core/src/btree.rs:1207-1214 | An underfull internal page has room for one more separator of the policy. |
| `BPlusTree.BTree.LeafMergeFits` | crates/ferrite-core/src/btree.rs:1147-1161 | Although merging checks nothing, an underfull leaf and a sibling with at most one entry fit in one page under the policy; the code merges in no other case. |
| `BPlusTree.BTree.InternalMergeFits` | crates/ferrite-core/src/btree.rs:1383-1394 | An underfull page, a sibling without separators and the separator between them fit in one page under the policy. |
| `BPlusTree.BTree.SplitLeaf` | crates/ferrite-core/src/btree.rs:763-816 | The leaf is cut at half its entry count; succeeds exactly when both halves and the promoted key have room; the map gains the entry. |
| `BPlusTree.BTree.HalveAndPromote` | crates/ferrite-core/src/btree.rs:782-816 | Cutting a leaf and promoting the first key of the upper half keeps structure and contents. |
| `BPlusTree.BTree.CutLeaf` | crates/ferrite-core/src/btree.rs:788-812 | The new leaf is linked into the chain right after the old one, the next leaf points back to it. |
| `BPlusTree.BTree.InsertIntoParent` | crates/ferrite-core/src/btree.rs:818-862 | A tree that would be whole with the new separator is whole afterwards, with the same contents; the searched position is the slot of the split child, so the separator is never a duplicate. Succeeds exactly when there is room on the way up. |
| `BPlusTree.BTree.NewRoot` | crates/ferrite-core/src/btree.rs:834-849 | A new root above the two halves of the old one. |
| `BPlusTree.BTree.SplitInternal` | crates/ferrite-core/src/btree.rs:864-916 | An overfull internal page is cut around its middle separator, which moves up; children of the upper half get their new parent. |
| `BPlusTree.BTree.CutInternal` | crates/ferrite-core/src/btree.rs:864-916 | The two halves, with the parent pointer of exactly the moved children changed. |
| `BPlusTree.BTree.RebalanceLeaf` | crates/ferrite-core/src/btree.rs:971-1016 | Borrows from the left sibling, else the right, or merges with it; a leaf without siblings stays. Succeeds exactly when the repair fits; contents unchanged. |
| `BPlusTree.BTree.RedistributeLeafLeft` | crates/ferrite-core/src/btree.rs:1018-1077 | Borrows exactly when the left leaf has two entries and its last fits on the right; fails exactly when the parent has no room for the new separator. |
| `BPlusTree.BTree.RedistributeLeafRight` | crates/ferrite-core/src/btree.rs:1079-1138 | The mirror image, with the first entry of the right leaf. |
| `BPlusTree.BTree.MergeLeafPair` | crates/ferrite-core/src/btree.rs:1140-1176 | The right leaf is emptied into the left one, unlinked and freed, and the parent loses the separator; succeeds exactly when the merged leaf fits and the parent can be repaired. |
| `BPlusTree.BTree.RemoveParentEntry` | crates/ferrite-core/src/btree.rs:1178-1217 | Drops a separator and the child right of it; collapses a root without separators, rebalances an underfull page. |
| `BPlusTree.BTree.CollapseRoot` | crates/ferrite-core/src/btree.rs:1184-1201 | The only child of a root without separators becomes the root; structure and contents are kept. |
| `BPlusTree.BTree.RebalanceInternal` | crates/ferrite-core/src/btree.rs:1219-1267 | Borrows a child from the left sibling, else the right, or merges; succeeds exactly when the repair fits. |
| `BPlusTree.BTree.RedistributeInternalLeft` | crates/ferrite-core/src/btree.rs:1269-1319 | The last child of the left page moves right and the keys rotate through the parent; fails exactly when the page or the parent has no room. |
| `BPlusTree.BTree.RedistributeInternalRight` | crates/ferrite-core/src/btree.rs:1321-1366 | The first child of the right page moves left, likewise. |
| `BPlusTree.BTree.MergeInternalPair` | crates/ferrite-core/src/btree.rs:1368-1406 | Both pages and the separator between them become one page, whose new children get their parent; the right page is freed. |
| `BPlusTree.BTree.AdoptChildren` | crates/ferrite-core/src/btree.rs:918-930 | The parent pointer of every child, and of no other page, is set. |
| `BPlusTree.BTree.NewPage` | crates/ferrite-core/src/btree.rs:788-790 | A new page of the tree is the last one freed, or the next at the end of the file, and was in no use; refused exactly when no page number is left. |
| `BPlusTree.BTree.DeletePage` | crates/ferrite-core/src/btree.rs:1165-1175 | Only a page that nobody holds is deleted, so the pool never refuses it; it goes to the head of the pager's free list. |
| `BPlusTree.BTree.PagesConserved` | crates/ferrite-core/src/pager.rs:123-160 | Every page number of the file is a page of the tree, another live page or on the free list, and only one of these, and on the list once; together with the header they are all of the file. |
| `BPlusTree.BTree.PageCount` | crates/ferrite-core/src/pager.rs:123-146 | The pages of the tree, the other live pages and the page numbers left are together always the same number: no operation loses one. |
| `TreeStore.PageStore.Take` | crates/ferrite-core/src/buffer_pool.rs:533-570 | With three frames and one client that holds fewer than three pages, fetching never fails (neither for want of a frame nor because of the log) and the lock is never in the way; nothing but the pin changes. |
| `TreeStore.PageStore.Fetch` | crates/ferrite-core/src/buffer_pool.rs:533-570 | The bytes of the fetched page, decoded, are the node the tree has there. |
| `TreeStore.PageStore.Release` | crates/ferrite-core/src/buffer_pool.rs:818-876 | The guard, its lock and its pin are gone, and nothing else. |
| `TreeStore.PageStore.Rebuild` | crates/ferrite-core/src/btree.rs:322-350 | Rebuilding a page held for writing puts the node into its bytes in the pool, and changes no other page. |
| `TreeStore.PageStore.SetParent` | crates/ferrite-core/src/btree.rs:918-930 | The parent pointer is set in the bytes, in place; the rest of the node stays. |
| `TreeStore.PageStore.SetPrev` | crates/ferrite-core/src/btree.rs:803-811 | The same for the prev pointer of a leaf. |
| `TreeStore.PageStore.New` | crates/ferrite-core/src/buffer_pool.rs:572-623 | A new page, held for writing, with a node in its bytes. It is refused only when the pager has no page number left; a frame is always found. |
| `TreeStore.PageStore.Delete` | crates/ferrite-core/src/buffer_pool.rs:674-693 | A page that is not held is deleted; `PagePinned` cannot occur. |
| `TreeStore.PageStore.PagesConserved` | crates/ferrite-core/src/pager.rs:123-160 | The live pages of the pager are the pages of the tree and the others, none both, and with the free list and the header they are the file. |
| `TreeStore.Beside` | crates/ferrite-core/src/btree.rs:625-653 | A second tree in the same file: its pages are live pages that are none of the first tree's, and from its side those of the first are none of its own. |
| `TreeShare.Switch` | crates/ferrite-core/src/btree.rs:625-653 | The other tree of the file is opened in the same pool, whole, and the tree that was open is one on other live pages. |
| `TreeShare.RunTwo` | crates/ferrite-core/src/btree.rs:740-1406 | Any run of operations on two trees in one file, in any order: each tree is the map of its own operations, no page is in both, and the run is lost exactly at the first operation that does not fit its tree. |
| `TreeStore.HeldAreGuards` | crates/ferrite-core/src/buffer_pool.rs:354-369 | The pool has no more guards than the client holds pages: none is forgotten. |
| `PoolClient.PinnedByGuards` | crates/ferrite-core/src/buffer_pool.rs:372-405 | When every frame is pinned there are at least as many guards as frames. |
| `PoolClient.SomeFrame` | crates/ferrite-core/src/buffer_pool.rs:372-405 | A client with fewer guards than there are frames always finds a frame free or evictable. |
| `BPlusTree.BTree.FindLeafPageId` | crates/ferrite-core/src/btree.rs:1640-1658 | The leaf whose key range contains the key. |
| `BPlusTree.BTree.FindLastLeafPageId` | crates/ferrite-core/src/btree.rs:1679-1698 | The last leaf of the chain, which no other leaf follows. |
| `BPlusTree.BTree.First` | crates/ferrite-core/src/btree.rs:711-722 | What `first` gives is the entry with the least key if and only if the first leaf has an entry or the map is empty; otherwise it gives nothing. |
| `BPlusTree.BTree.Last` | crates/ferrite-core/src/btree.rs:724-735 | What `last` gives is the entry with the greatest key if and only if the last leaf has an entry or the map is empty; otherwise it gives nothing. |
| `TreeEdges.FirstLeafDecides` | crates/ferrite-core/src/btree.rs:711-722 | The first leaf of the chain decides whether its first entry is the least of the map. |
| `TreeEdges.LastLeafDecides` | crates/ferrite-core/src/btree.rs:724-735 | The last leaf of the chain, likewise for the greatest. |
| `TreeEdgeRuns.FirstMisses` | crates/ferrite-core/src/btree.rs:711-722 | The condition is needed: four modelled inserts and two deletes on a tree in a new file leave two entries and an empty first leaf, and `first` gives nothing. |
| `TreeEdgeRuns.LastMisses` | crates/ferrite-core/src/btree.rs:724-735 | The same for the last leaf and `last`. |
| `BPlusTree.SearchEntries` | crates/ferrite-core/src/btree.rs:289-303 | The key is at the position found, or all keys before are smaller and all from there larger. |
| `BPlusTree.FindChild` | crates/ferrite-core/src/btree.rs:513-534 | The child between the two separators that enclose the key; a key equal to a separator goes right. |
| `BPlusTree.ChildPosition` | crates/ferrite-core/src/btree.rs:980-986 | The slot of a page in its parent. |
| `BPlusTree.BTree.Len` | crates/ferrite-core/src/btree.rs:691-703 | The number of keys of the map. |
| `BPlusTree.BTree.Scan` | crates/ferrite-core/src/btree.rs:1411-1448 | The first `limit` entries of the map with key at or above the start, in the lexicographic order of their keys, empty leaves or not: those given are from the map and rise, and every other key of the map from the start on comes after them, which are then as many as asked for. |
| `BPlusTree.BTree.VerifyIntegrity` | crates/ferrite-core/src/btree.rs:1499-1554 | Accepts every valid tree, and reports the true key count, depth, number of leaves, number of internal pages, and the keys of the map that come first and last in lexicographic order. |
| `BPlusTree.BTree.VerifySubtree` | crates/ferrite-core/src/btree.rs:1556-1636 | Accepts every subtree of a valid tree within its separator bounds, and counts its keys, leaves and depth. |
| `BTreeRange.BTreeRangeIter.constructor` | crates/ferrite-core/src/btree.rs:1451-1494 | The iterator starts with exactly the entries within its bounds, in key order, still to yield. |
| `BTreeRange.BTreeRangeIter.Next` | crates/ferrite-core/src/btree.rs:1717-1757 | Yields the first of the entries still to yield and leaves the rest; at the end it stays at the end. |
| `BTreeRange.Collect` | crates/ferrite-core/src/btree.rs:1451-1494 | Exhausting a range yields every entry of the map within included, excluded or open bounds once, in the lexicographic order of the keys, and terminates. |
| `BTreeRange.RunOps` | crates/ferrite-core/src/btree.rs:740-1406 | Any run of inserts and deletes on a new tree, beside any other live pages: in every state of the run the tree is valid, is the finite map so far, is determined by the state before, and no page number is lost; the run is lost exactly when the next operation does not fit the tree before it. A run that keeps to a size policy (with keys of one length when it deletes) is lost only when fewer page numbers are left than the tree has levels, plus two. |
| `BTreeRange.RunOp` | crates/ferrite-core/src/btree.rs:740-969 | One operation is lost exactly when its condition fails on the tree and the page numbers before it; otherwise it leads to the tree that `OpStep` describes. |
| `TreeSplit.SplitLeafKeepsStruct` | crates/ferrite-core/src/btree.rs:763-862 | Splitting a leaf and attaching the new one keeps the whole invariant: levels, rising separators, key ranges, parent pointers, leaf chain. |
| `TreeSplit.SplitInternalKeepsStruct` | crates/ferrite-core/src/btree.rs:864-930 | The same for an internal page. |
| `TreeMerge.MergeLeafKeepsStruct` | crates/ferrite-core/src/btree.rs:1140-1217 | Merging two leaves keeps the whole invariant. |
| `TreeMerge.MergeInternalKeepsStruct` | crates/ferrite-core/src/btree.rs:1368-1406 | Merging two internal pages keeps the whole invariant. |
| `TreeBorrow.BorrowLeafIsMergeSplit` | crates/ferrite-core/src/btree.rs:1018-1138 | Borrowing between leaves is a merge followed by a split at another place. |
| `TreeBorrow.BorrowLeafKeepsStruct` | crates/ferrite-core/src/btree.rs:1018-1138 | Hence borrowing keeps the whole invariant, whatever the number of entries moved. |
| `TreeBorrow.BorrowInternalKeepsStruct` | crates/ferrite-core/src/btree.rs:1269-1366 | The same for internal pages, even when the lender keeps no separator. |
| `TreeBorrow.BorrowFromLeftMovesOne` | crates/ferrite-core/src/btree.rs:1281-1319 | Only the one child that changes sides needs a new parent pointer. |
| `TreeBorrow.BorrowFromRightMovesOne` | crates/ferrite-core/src/btree.rs:1333-1366 | The same from the right. |
| `TreeRoot.GrowKeepsStruct` | crates/ferrite-core/src/btree.rs:834-849 | A root above the old one keeps the invariant. |
| `TreeRoot.ShrinkKeepsStruct` | crates/ferrite-core/src/btree.rs:1184-1201 | Dropping a root with one child keeps the invariant. |
| `TreePending.HalvedLeafPends` | crates/ferrite-core/src/btree.rs:782-816 | Between the cut and the new separator the tree is one step away from being whole. |
| `TreePending.HalvedInternalPends` | crates/ferrite-core/src/btree.rs:864-916 | The same for an internal page. |
| `TreeContents.SplitLeafKeepsContents` | crates/ferrite-core/src/btree.rs:763-816 | A split changes no entry and no order. |
| `TreeContents.MergeLeafKeepsContents` | crates/ferrite-core/src/btree.rs:1140-1176 | Nor does a merge. |
| `TreeContents.BorrowLeafKeepsContents` | crates/ferrite-core/src/btree.rs:1018-1138 | Nor does borrowing. |
| `TreeContents.ContentsSorted` | crates/ferrite-core/src/btree.rs:1411-1448 | The entries along the leaf chain are in strict key order. |
| `TreeLeaf.LeafDecides` | crates/ferrite-core/src/btree.rs:667-683 | The leaf whose range covers a key decides what the whole tree holds for it. |
| `TreeLeaf.PutInLeaf` | crates/ferrite-core/src/btree.rs:353-381 | Putting an entry into the covering leaf is putting it into the map. |
| `TreeLeaf.RemoveInLeaf` | crates/ferrite-core/src/btree.rs:384-396 | Removing it from the leaf is removing it from the map. |
| `TreeOrder.ChainIsInOrder` | crates/ferrite-core/src/btree.rs:1556-1636 | The leaf chain is the left-to-right sequence of the leaves below the root. |
| `TreeOrder.AllPagesReachable` | crates/ferrite-core/src/btree.rs:793-915 | Every page of the tree is reachable from the root: none leaks. |
| `TreeOrder.UpToAll` | crates/ferrite-core/src/btree.rs:1556-1636 | The internal pages below a page are itself and those below each child, none below two: so the recursive count of the integrity check counts each once. |
| `TreeOrder.AllInternals` | crates/ferrite-core/src/btree.rs:1499-1554 | Below the root are all the internal pages of the tree. |
| `TreeOrder.RangeFromPosition` | crates/ferrite-core/src/btree.rs:1451-1494 | The entries within bounds are the ones from the searched position up to the end bound. |
| `TreeListing.TreeLists` | crates/ferrite-core/src/btree.rs:1411-1494 | The entries of a tree within bounds are those of its map whose keys are within them, all of them, in lexicographic order. |
| `TreeModel.ChainRises` | crates/ferrite-core/src/btree.rs:1499-1554 | Leaves further along the chain hold larger keys. |
| `TreeModel.SlotUnique` | crates/ferrite-core/src/btree.rs:980-986 | A page is the child of its parent in one slot only. |
| `Keys.CompareIsLex` | crates/ferrite-core/src/btree.rs:289-303 | Keys compare as byte strings in lexicographic order: a proper prefix is less, and otherwise the first byte that differs decides. |
| `Keys.CompareIsRankOrder` | crates/ferrite-core/src/btree.rs:289-303 | Byte-wise comparison of keys is the order of their ranks, and equal ranks mean equal keys. |
| `NodeLayout.RebuildLeaf` | crates/ferrite-core/src/btree.rs:322-350 | Any leaf that fits is in the page bytes afterwards, in place: packed from the end of the page, each value right above its key and below the entries before it, zeros between the slots and the payloads. |
| `NodeLayout.LeafRoundTrip` | crates/ferrite-core/src/btree.rs:280-287 | Whatever leaf was written is read back, and the page passes `validate`. |
| `NodeLayout.ReadAllLeafEntries` | crates/ferrite-core/src/btree.rs:280-287 | The entries of all slots, in order. |
| `NodeLayout.UsedLeafBytes` | crates/ferrite-core/src/btree.rs:399-411 | Counts what the model of sizes counts. |
| `NodeLayout.SetLeafPointer` | crates/ferrite-core/src/btree.rs:239-257 | Setting parent, prev or next in place changes that pointer of the leaf and nothing else. |
| `InternalLayout.RebuildInternal` | crates/ferrite-core/src/btree.rs:537-558 | Any internal node that fits is in the page bytes afterwards, the keys packed from the end of the page, zeros between them and the slots. |
| `InternalLayout.InternalRoundTrip` | crates/ferrite-core/src/btree.rs:492-499 | Whatever internal node was written is read back, and the page passes `validate`. |
| `InternalLayout.AllChildren` | crates/ferrite-core/src/btree.rs:502-510 | The children, first to last. |
| `NodeOps.LeafInsertOrUpdate` | crates/ferrite-core/src/btree.rs:353-381 | On bytes: full exactly when the new leaf does not fit, and then no byte changed; else the page holds the leaf with the entry. |
| `NodeOps.LeafDeleteKey` | crates/ferrite-core/src/btree.rs:384-396 | On bytes: the page holds the leaf without the entry, or no byte changed when the key is absent. |
| `NodeOps.InternalInsertEntry` | crates/ferrite-core/src/btree.rs:561-585 | On bytes: full exactly when the new node does not fit, and then no byte changed. |
| `NodeBytes.LeafPage` | crates/ferrite-core/src/btree.rs:67-82 | The bytes of a leaf page: type 1, the count, the end of the slots, the start of the payloads, parent, prev and next, lowest byte first. |
| `NodeBytes.LeafPageSlot` | crates/ferrite-core/src/btree.rs:259-271 | Slot i is at 32 + 8 i: offset and length of the key, offset and length of the value. |
| `NodeBytes.InternalPage` | crates/ferrite-core/src/btree.rs:85-93 | The bytes of an internal page: type 2, the count, the end of the slots, the start of the keys, parent and first child. |
| `NodeBytes.InternalPageSlot` | crates/ferrite-core/src/btree.rs:472-484 | Slot i is at 24 + 12 i: offset and length of the key, and the child. |
| `NodeBytes.LeafAccepted` | crates/ferrite-core/src/btree.rs:207-228 | `validate` accepts exactly the pages of type 1 whose slots end where the count says and not above the payloads; another type is an error of its own. |
| `NodeBytes.InternalAccepted` | crates/ferrite-core/src/btree.rs:429-450 | The same for type 2. |
| `Checksum.Compute` | crates/ferrite-core/src/wal.rs:298-302 | The loop computes the checksum that `ChecksumIs` describes. |
| `Checksum.ChecksumIs` | crates/ferrite-core/src/wal.rs:298-302 | 32-bit FNV-1a (draft-eastlake-fnv, section 2): 0x811C9DC5 for no bytes, and for one byte more the exclusive or with it, then times 0x01000193, modulo 2^32. |
| `Checksum.XorBits` | crates/ferrite-core/src/wal.rs:298-302 | The exclusive or is that of the bits. |
| `Checksum.PublishedValue` | crates/ferrite-core/src/wal.rs:298-302 | The checksum of the letter a is 0xE40C292C. |
| `Checksum.StepInjectiveInHash` | crates/ferrite-core/src/wal.rs:298-302 | Each round is injective in the hash: the prime has the inverse 0x359C449B modulo 2^32. |
| `Checksum.StepInjectiveInByte` | crates/ferrite-core/src/wal.rs:298-302 | And injective in the byte. |
| `Checksum.OneByteDetected` | crates/ferrite-core/src/wal.rs:298-302 | Changing any one byte of bytes of any length changes the checksum. |
| `LittleEndian.FourBytes` | crates/ferrite-core/src/wal.rs:115-121 | Lengths and checksums are stored in four bytes, the lowest first. |
| `LittleEndian.EightBytes` | crates/ferrite-core/src/wal.rs:115-121 | Ids in eight, likewise. |
| `WalFormat.PutRoundTrip` | crates/ferrite-core/src/wal.rs:266-296 | Parsing a put payload gives back key and value. |
| `WalFormat.BodyRoundTrip` | crates/ferrite-core/src/wal.rs:197-239 | Every record written can be read back. |
| `WalFormat.BodyByteDetected` | crates/ferrite-core/src/wal.rs:194-196 | Any one byte of any record body changed in a log that can be read: recovery fails. |
| `WalFormat.ChecksumByteDetected` | crates/ferrite-core/src/wal.rs:194-196 | Any other bytes in place of a stored checksum: recovery fails. |
| `WalFormat.ReadPrefix` | crates/ferrite-core/src/wal.rs:165-240 | From any state, a prefix of a log is readable exactly when it ends with a record, and then has the effect of the records in it. |
| `WalLaws.RecordBytes` | crates/ferrite-core/src/wal.rs:99-126 | Every byte of a record: the length and the checksum of the body in four bytes each, then 1, 2, 3 or 4 for begin, put, commit or delete, the id in eight, for a put the two lengths in four, the key and the value. |
| `WalLaws.AcceptedExactly` | crates/ferrite-core/src/wal.rs:145-246 | The reader accepts a file if and only if it is FRTWAL01 and the bytes of records in a legal order, with keys of at most 4096 bytes and values of at most 1 MiB, 64 MiB in all; what it takes from any of them is their meaning. |
| `WalLaws.OneReading` | crates/ferrite-core/src/wal.rs:161-240 | The bytes of a log determine its records. |
| `WalLaws.OrderIsLegal` | crates/ferrite-core/src/wal.rs:197-264 | Legal means: an id is begun once, and written to, at most 1024 times, and committed only after that and before its commit. |
| `WalMeaning.RunMeans` | crates/ferrite-core/src/wal.rs:161-264 | The reader accepts exactly the well-ordered logs (begin before writes, one commit, new ids, at most 1024 writes) and collects exactly the committed transactions, in commit order, with their writes in log order. |
| `WalMeaning.ApplyMeans` | crates/ferrite-core/src/wal.rs:207-264 | One record is accepted exactly when it is legal after the records before it. |
| `WalMeaning.RecoveryInvertsWriter` | crates/ferrite-core/src/wal.rs:145-246 | Reading a log written in a legal order gives back exactly what it means. |
| `WalMeaning.RecoveryOfPrefix` | crates/ferrite-core/src/wal.rs:145-246 | Reading a prefix succeeds exactly when the cut is at the end of a record at or after the magic; it then gives the transactions committed by then; any other cut is refused as corrupt. |
| `WalMeaning.CommittedPrefix` | crates/ferrite-core/src/wal.rs:145-246 | The transactions committed in a prefix are a prefix of those committed in the end. |
| `WalMeaning.CommittedWrites` | crates/ferrite-core/src/wal.rs:145-246 | A committed transaction has all the writes logged for it, and is committed once. |
| `WriteAheadLog.Wal.Create` | crates/ferrite-core/src/wal.rs:25-33 | A new log is the magic, durable. |
| `WriteAheadLog.Wal.WriteRecord` | crates/ferrite-core/src/wal.rs:99-126 | A record over a limit changes nothing; otherwise the frame is appended, or as much of it as the device takes, and the length moves only when all of it was. |
| `WriteAheadLog.Wal.Begin` | crates/ferrite-core/src/wal.rs:42-46 | Appends a begin record, or is refused, or leaves a torn one. |
| `WriteAheadLog.Wal.Put` | crates/ferrite-core/src/wal.rs:48-69 | The same for a put; refused for a key over 4096 bytes, a value over 1 MiB, or a log that would grow over 64 MiB. |
| `WriteAheadLog.Wal.Delete` | crates/ferrite-core/src/wal.rs:71-78 | The same for a delete. |
| `WriteAheadLog.Wal.Commit` | crates/ferrite-core/src/wal.rs:80-86 | The commit record and then the sync: only then is everything so far durable. |
| `WriteAheadLog.Recover` | crates/ferrite-core/src/wal.rs:145-246 | A file is accepted if and only if it holds records in a legal order within the limits, and then the result is what those say: the committed transactions and the largest begun id. A file over 64 MiB has an error of its own; every other one is corrupt. |
| `TransactionLog.AppendTransaction` | crates/ferrite-core/src/lib.rs:287-303 | Appending the records of a transaction with a new id commits exactly that transaction, last. |
| `TransactionLog.PartOfTransaction` | crates/ferrite-core/src/lib.rs:287-303 | Any proper part of those records commits nothing: a transaction is never seen in part. |
| `DatabaseModel.ReservationIsExact` | crates/ferrite-core/src/lib.rs:262-286 | 34 + sum(17 + payload) is exactly the number of bytes a transaction appends. |
| `DatabaseModel.LastOperationDecides` | crates/ferrite-core/src/lib.rs:228-254 | After operations a key is in the map exactly when the last operation on it was a put, with the value of that put, or there was none and it was there before, with the value it had. |
| `DatabaseModel.BecameOne` | crates/ferrite-core/src/lib.rs:228-254 | That determines the map. |
| `DatabaseModel.LastWriteDecides` | crates/ferrite-core/src/lib.rs:149-162 | Replaying transactions succeeds exactly when every key is text and every value can be decoded; then a key is in the map exactly when the last write on it was a put, with the value decoded from that put. |
| `DatabaseLaws.WrittenExactly` | crates/ferrite-core/src/lib.rs:221-291 | When a transaction is written: the database is usable, there are 1 to 1024 operations, on keys of 1 to 4096 bytes without a zero byte, with values of at most 1 MiB and 8 MiB in all, the map that they make meets the schema, the log stays within 64 MiB, and an id is left after this one. |
| `DatabaseLaws.CountedBytes` | crates/ferrite-core/src/lib.rs:231-257 | What is counted against the 8 MiB: the bytes of all keys, and of the values of puts. |
| `DatabaseLaws.TransactionCost` | crates/ferrite-core/src/lib.rs:262-286 | A transaction takes up 34 bytes, 17 for each operation, 8 more for each put, and its keys and values. |
| `Database.Database.Transaction` | crates/ferrite-core/src/lib.rs:221-311 | Refused in the order of the checks without any change; done exactly when the device took all bytes and synced them, and then the log has grown by exactly its records, all of them durable, the next id is one more, and in the map the last operation on each key decides; failed on the way, the map is as before, some of the bytes are there and the database is poisoned. |
| `Database.Database.Get` | crates/ferrite-core/src/lib.rs:190-193 | The value under a key of 1 to 4096 bytes without a zero byte, or none; any other key is refused. |
| `Database.Database.List` | crates/ferrite-core/src/lib.rs:194-204 | The entries, or those whose keys begin with a valid prefix: all of them, each as in the map, in the lexicographic order of their keys. |
| `Database.Database.Stage` | crates/ferrite-core/src/lib.rs:228-254 | The candidate map, in which the last operation on each key decides, and the encoded writes; refused exactly when the number of operations, a key, a value or the sum breaks its limit, each given as a number. |
| `Database.Database.Reserve` | crates/ferrite-core/src/lib.rs:262-286 | The loop computes the exact size of the transaction in the log. |
| `Database.Database.WriteLog` | crates/ferrite-core/src/lib.rs:287-303 | After a successful reservation no record of the transaction can meet a limit. |
| `Database.ListEntries` | crates/ferrite-core/src/lib.rs:325-326 | Every entry of the map once, in the lexicographic order of the keys. |
| `Database.Database.Checkpoint` | crates/ferrite-core/src/lib.rs:313-357 | Nothing happened; or the database is only poisoned; or the rewritten log, durable and with the same map in key order, has the name of the log. Then, unless the directory was synced too, what the name stood for may still come back, and the call has failed; when done, the ids went on by one for every 1024 entries. It succeeds whenever the environment lets it and the rewritten log fits. |
| `Database.Database.Replace` | crates/ferrite-core/src/lib.rs:344-357 | The rename and what follows: from the rename until the directory sync the old file is kept as one that may come back, after it nothing is. |
| `Database.Database.StageCheckpoint` | crates/ferrite-core/src/lib.rs:322-344 | The staged file is one transaction for every 1024 entries, with the next ids. |
| `Database.ReplayAll` | crates/ferrite-core/src/lib.rs:138-156 | Replaying the recovered transactions in order gives the map, or finds a key that is no text or a value that cannot be decoded. |
| `Database.Open` | crates/ferrite-core/src/lib.rs:126-188 | Opening a log gives the map in which the last committed write on each key decides, and continues with the id above the largest begun in it, or 1. It is refused as a log exactly when it does not hold records in a legal order, and as data exactly when a committed key or value cannot be read. A missing log is created; until the directory sync that follows, which may fail, there being no log may come back. Opening a log that is there syncs no directory, unless a schema is stored; then nothing from before may come back. |
| `Compaction.CheckpointMeans` | crates/ferrite-core/src/lib.rs:325-340 | The rewritten log is well ordered and means the map it was written from. |
| `Compaction.ChunksIsCeiling` | crates/ferrite-core/src/lib.rs:325-340 | The number of transactions is the number of entries over 1024, rounded up. |
| `DatabaseLaws.CheckpointTransactions` | crates/ferrite-core/src/lib.rs:322-340 | Transaction i of the rewritten log has the next id plus i and puts the entries from 1024 i on, at most 1024 of them. |
| `Compaction.CommittedFit` | crates/ferrite-core/src/wal.rs:145-246 | The committed transactions take up no more bytes than the log. |
| `Compaction.CheckpointNeverGrows` | crates/ferrite-core/src/lib.rs:313-357 | For any log of faithful writes the log rewritten from its map is no longer. |
| `DatabaseRuns.CheckpointFits` | crates/ferrite-core/src/lib.rs:313-357 | On a database reached by any run a checkpoint never fails for want of space below the 64 MiB cap. |
| `DatabaseRuns.OpenedData` | crates/ferrite-core/src/lib.rs:138-168 | Opening the file left by a run yields the latest version, exactly when the file ends with a whole record; otherwise it is refused as corrupt. |
| `DatabaseRuns.TransactDone` | crates/ferrite-core/src/lib.rs:221-311 | A transaction that returns success is the only durable version. |
| `DatabaseRuns.TransactFailed` | crates/ferrite-core/src/lib.rs:359-367 | After a failed one the durable version is the one before it, with at most the whole new one as an alternative. |
| `DatabaseRuns.PartlyInFile` | crates/ferrite-core/src/lib.rs:221-311 | Whatever part of a transaction is in the file, the versions are the map before and possibly the map after it. |
| `DatabaseRuns.CrashStep` | crates/ferrite-core/src/lib.rs:78-188 | A crash that keeps any bytes including all synced ones leaves one of the versions. |
| `DatabaseRuns.CheckpointedStep` | crates/ferrite-core/src/lib.rs:313-357 | A checkpoint that put its file in place leaves the latest map as the only version of it; otherwise no version changes. |
| `DatabaseRuns.CheckpointRefines` | crates/ferrite-core/src/lib.rs:344-357 | A checkpoint whose directory was not synced leaves the old file, with the versions it had, as one that may come back; a synced one leaves none. |
| `DatabaseRuns.PowerLostRefines` | crates/ferrite-core/src/lib.rs:313-357 | A loss of power leaves a version of the log, or one of what the name may stand for again: a file that was replaced, or no log at all; and nothing else. |
| `DatabaseRuns.OpenRefines` | crates/ferrite-core/src/lib.rs:126-188 | An opening, whatever fails in it, changes no version of a log that is there; a missing one becomes a log that means the empty map, and until the directory is synced may be missing again. |
| `DatabaseRuns.StepRefines` | crates/ferrite-core/src/lib.rs:138-367 | Every step of the system (transaction, checkpoint and opening at each of their failures, loss of power, death of the process) is a step of an atomic, durable map with the older maps that may come back, and keeps the invariant. The first state is a directory without a log. |
| `DatabaseRuns.RunRefines` | crates/ferrite-core/src/lib.rs:138-367 | Every run refines that map: at any time the database shows the latest version, or its log is refused as corrupt; never a part of a transaction. |
| `DatabaseHistory.RunHasHistory` | crates/ferrite-core/src/lib.rs:221-367 | In every state of every run each version is the map after some whole transactions of the run, done in order from the empty map: exactly the acknowledged ones that are safe, and otherwise only ones that failed with an I/O error of the log. |
| `DatabaseHistory.SafeExactly` | crates/ferrite-core/src/lib.rs:126-188 | Exactly the acknowledged transactions are safe that no loss of power undid by bringing back what the log's name had stood for before them: a file that a checkpoint replaced, or none, while the directory had not been synced since. |
| `DatabaseHistory.AcknowledgedSafe` | crates/ferrite-core/src/lib.rs:221-311 | So in a run in which no loss of power brings back what the name stood for before, every acknowledged transaction is safe in every later state, whatever transactions, failures, losses of power, reopenings and checkpoints follow. |
| `DatabaseHistory.SafeOnceSynced` | crates/ferrite-core/src/lib.rs:344-357 | And a transaction acknowledged when nothing can come back, the directory having been synced since the name last changed, is safe for good, whatever comes back later. |
| `DatabaseHistory.RunShowsHistory` | crates/ferrite-core/src/lib.rs:190-203 | What an open database has in memory for its reads, and what opening its log gives, is in every reached state the map after such a history. |
| `DatabaseHistory.HistoryDecides` | crates/ferrite-core/src/lib.rs:221-367 | So in what it shows the last operation on a key, in those transactions one after the other, decides. |
| `DatabaseHistory.OldFileReturns` | crates/ferrite-core/src/lib.rs:344-357 | The condition is needed: a checkpoint is renamed but its directory is not synced, the database is opened again and acknowledges a transaction, power is lost, the old file is back, and the transaction is gone. |
| `DatabaseHistory.NewFileVanishes` | crates/ferrite-core/src/lib.rs:138-144 | And without a checkpoint: the log is created but its directory is not synced, the database is opened again, which finds the log and syncs no directory, and acknowledges a transaction; power is lost, there is no log, and the transaction is gone. |
| `DatabaseHistory.OneTransactionFits` | crates/ferrite-core/src/lib.rs:221-286 | Whatever the limits on a transaction accept fits in a new log. |
| `PoolModel.StepKeeps` | crates/ferrite-core/src/buffer_pool.rs:372-876 | Every step of any guard holder keeps the invariant, is a step of a plain map of pages (changed only by writing through an exclusive guard, creating and deleting), leaves pinned pages in their frames, and never lowers the flushed LSN. |
| `PoolModel.RunKeeps` | crates/ferrite-core/src/buffer_pool.rs:372-876 | In every run of any number of guard holders interleaved in any way: all of that, and no page was ever written to disk before the log it depends on. |
| `PoolModel.FramesShared` | crates/ferrite-core/src/buffer_pool.rs:354-369 | Pins are exactly the outstanding guards; evictable is exactly mapped and unpinned; no page is in two frames; mapped frames and free frames partition the frames. |
| `PoolModel.FrameToBeHad` | crates/ferrite-core/src/buffer_pool.rs:372-405 | A frame can be found unless every frame is pinned. |
| `PoolModel.WriteBackKeeps` | crates/ferrite-core/src/buffer_pool.rs:428-443 | Writing a dirty frame back is invisible to clients and comes after the log. |
| `PoolModel.ObtainedKeeps` | crates/ferrite-core/src/buffer_pool.rs:372-405 | Finding a frame, with or without eviction, is invisible and takes no pinned page. |
| `PoolModel.LoadKeeps` | crates/ferrite-core/src/buffer_pool.rs:747-784 | Reading a page into a frame is invisible. |
| `PoolModel.CreateKeeps` | crates/ferrite-core/src/buffer_pool.rs:572-623 | A new page is all zeros and no other page changes. |
| `PoolModel.DeleteKeeps` | crates/ferrite-core/src/buffer_pool.rs:674-693 | Deleting an unpinned page takes it away and changes no other. |
| `PoolModel.WriteKeeps` | crates/ferrite-core/src/buffer_pool.rs:864-869 | Writing through an exclusive guard changes its page and no other. |
| `PoolModel.DropKeeps` | crates/ferrite-core/src/buffer_pool.rs:871-876 | Dropping a guard takes one pin and no contents. |
| `BufferPool.BufferPool.constructor` | crates/ferrite-core/src/buffer_pool.rs:470-509 | All frames are free, the first one to be taken first, no page is mapped, the contents are those of the disk, and the policy has been told nothing. |
| `BufferPool.BufferPool.EnforceWalInvariant` | crates/ferrite-core/src/buffer_pool.rs:407-426 | Done exactly when the log is flushed that far or the hook says it synced it; a failure changes nothing. |
| `BufferPool.BufferPool.FindAvailableFrame` | crates/ferrite-core/src/buffer_pool.rs:372-405 | The frame freed last, or a victim, which is the one prescribed by all the pins, evictions and deletions so far; `NoFreeFrame` exactly when no frame is free or evictable; it fails exactly when that is so or the frame the policy picks is dirty with a log that cannot be synced, and then everything is as before, the victim evictable again. |
| `BufferPool.BufferPool.WriteFrame` | crates/ferrite-core/src/buffer_pool.rs:428-443 | Fails exactly when the log is not flushed far enough and cannot be; then nothing has changed. Otherwise the frame is written, after the log. |
| `BufferPool.BufferPool.PinPage` | crates/ferrite-core/src/buffer_pool.rs:747-784 | Pins the page in its frame or in one found for it, which was free or is the victim prescribed by all uses so far, and records exactly one use, of that frame, hit or miss; a failure changes nothing, records no use, and happens exactly beyond the end of the file, or for a page without a frame when no frame can be had. |
| `BufferPool.BufferPool.NewPage` | crates/ferrite-core/src/buffer_pool.rs:572-623 | Allocates and pins a page of zeros, the last freed or the next of the file, in a frame that was free or is the victim prescribed, and records exactly one use of that frame; fails exactly when no frame can be had (`NoFreeFrame` exactly when none is free or evictable) or the file is full, and then records none. |
| `BufferPool.BufferPool.UnpinPage` | crates/ferrite-core/src/buffer_pool.rs:626-650 | One pin less; the dirty bit and the LSN only grow; at zero the frame becomes evictable. |
| `BufferPool.BufferPool.DropGuard` | crates/ferrite-core/src/buffer_pool.rs:871-876 | A step of the pool model. |
| `BufferPool.BufferPool.WriteThrough` | crates/ferrite-core/src/buffer_pool.rs:864-869 | The client-visible contents change in that one page. |
| `BufferPool.BufferPool.FlushPage` | crates/ferrite-core/src/buffer_pool.rs:653-660 | Fails exactly for a dirty page whose log cannot be flushed, and changes nothing; otherwise a dirty page is written back, log first. |
| `BufferPool.BufferPool.FlushAll` | crates/ferrite-core/src/buffer_pool.rs:663-671 | Contents are unchanged; when done every frame is clean, and with no dirty guard out the disk is the contents; when it fails some dirty frame cannot have its log flushed. |
| `BufferPool.BufferPool.FlushNext` | crates/ferrite-core/src/buffer_pool.rs:663-671 | One round of the loop: the page is written back, and those written before stay clean. |
| `BufferPool.BufferPool.DeletePage` | crates/ferrite-core/src/buffer_pool.rs:674-693 | Refused exactly when a guard holds the page; otherwise done exactly for an allocated page, which goes to the head of the free list, and for a page that is free already, after which there is no free list. The policy forgets the frame it was in, if any. |
| `BufferPool.BufferPool.TellUse` | crates/ferrite-core/src/buffer_pool.rs:753-758 | The policy is told of one use and pins the frame; what it keeps then follows from all it was ever told. |
| `ReplacerLaws.LruKIs` | crates/ferrite-core/src/buffer_pool.rs:212-249 | LRU-K prescribes, by the times of the uses of each frame since it got its page: a frame with fewer than k before one with k, among those with fewer the one used first, among the others the one whose k-th last use is oldest. |
| `ReplacerLaws.UseTimesAre` | crates/ferrite-core/src/buffer_pool.rs:263-279 | A use adds the present time to those of its frame alone; a frame that loses its page has none. |
| `ReplacerLaws.ClockIs` | crates/ferrite-core/src/buffer_pool.rs:140-161 | CLOCK prescribes the evictable frame without a bit that is the fewest steps from the hand, or the one with the fewest steps at all when every evictable frame has its bit. |
| `ReplacerLaws.BitsAre` | crates/ferrite-core/src/buffer_pool.rs:175-186 | A use sets the bit of its frame, losing the page clears it; the hand stays. |
| `ReplacerLaws.SweepLeaves` | crates/ferrite-core/src/buffer_pool.rs:140-161 | A sweep leaves the hand behind the victim, and clears the bits of exactly the evictable frames it passed, of all of them when it came round. |
| `Replacer.ThirdIsEvicted` | crates/ferrite-core/tests/buffer_pool.rs:143-176 | With k = 2: three pages are created and the first two fetched again; then the third is the victim. |
| `Replacer.SecondChance` | crates/ferrite-core/src/buffer_pool.rs:140-161 | CLOCK passes a frame that was used again since the hand came by. |
| `Replacer.ClockReplacer.Victim` | crates/ferrite-core/src/buffer_pool.rs:140-161 | None exactly when all frames are pinned; otherwise the first unpinned frame in hand order without its bit, or the first unpinned one when all have it, and exactly the bits passed are cleared. |
| `Replacer.SweepFinds` | crates/ferrite-core/src/buffer_pool.rs:140-161 | At the frame where the sweep stops, the choice is the second-chance one. |
| `Replacer.LruKReplacer.Victim` | crates/ferrite-core/src/buffer_pool.rs:212-249 | None exactly when all frames are pinned; otherwise the frame with fewer than k accesses and the earliest first one, else the one with the oldest k-th last access. |
| `Replacer.LruKReplacer.RecordAccess` | crates/ferrite-core/src/buffer_pool.rs:263-272 | The history is the last k of all accesses, in increasing order. |
| `Replacer.Choose` | crates/ferrite-core/src/buffer_pool.rs:212-249 | One pass over the frames finds it. |
| `Pager.HeaderRoundTrip` | crates/ferrite-core/src/pager.rs:80-116 | Reading a header page gives back the header written. |
| `Pager.HeaderBytes` | crates/ferrite-core/src/pager.rs:5-16 | The header page byte by byte: FERRITE and a zero byte, version 1, page size, page count, head of the free list, sequence number, zeros. |
| `Pager.OpensExactly` | crates/ferrite-core/src/pager.rs:80-116 | A file is opened exactly when it begins so, with a page size of 4096 or 8192; another size is an error of its own, everything else is corrupt. |
| `Pager.CreateFile` | crates/ferrite-core/src/pager.rs:56-77 | A new file with a page size of 4096 or 8192; any other size is refused. |
| `Pager.ChainUnique` | crates/ferrite-core/src/pager.rs:123-160 | The free list is determined by its head and the pages on disk. |
| `Pager.DoubleFreeLosesList` | crates/ferrite-core/src/pager.rs:149-160 | After a page is freed twice no sequence of pages is a free list any more. |
| `Pager.PushOnNoList` | crates/ferrite-core/src/pager.rs:149-160 | Freeing another page then does not mend it. |
| `Pager.OverwrittenChain` | crates/ferrite-core/src/pager.rs:178-189 | Writing over a page leaves the free list in order exactly when the page is not in it or its link stays the same. |
| `Pager.Pager.Create` | crates/ferrite-core/src/pager.rs:56-77 | A file with a header and no other page. |
| `Pager.Pager.Alloc` | crates/ferrite-core/src/pager.rs:123-146 | Last freed first, or the file grows by one; the page is zeroed and was not in use; all other pages are unchanged. |
| `Pager.Pager.Free` | crates/ferrite-core/src/pager.rs:149-160 | Page 0 and pages beyond the end are refused. A page that is not free leaves the live pages and heads the free list, which stays acyclic; a page that is free already is accepted, and then there is no free list any more, and none comes back by freeing more pages. |
| `Pager.Pager.Read` | crates/ferrite-core/src/pager.rs:165-173 | The bytes of the page; beyond the end an error. |
| `Pager.Pager.WritePage` | crates/ferrite-core/src/pager.rs:178-189 | That page and no other has the new bytes; a wrong size or number is refused. The pager stays valid exactly when the page is neither the header nor free, or what it is needed for stays in it. |
| `Pager.Pager.RecordWalCommit` | crates/ferrite-core/src/pager.rs:213-223 | Only the sequence number changes. |
| `Pager.ReopenedList` | crates/ferrite-core/src/pager.rs:80-116 | A file opened again has the same header and the same free list. |
| `SlottedPage.SlottedPage.constructor` | crates/ferrite-core/src/slotted_page.rs:45-55 | An empty page holds no slots, all but its 8 bytes of header are free, and it is zeros but for the header. |
| `SlottedPage.SlottedPage.Insert` | crates/ferrite-core/src/slotted_page.rs:102-144 | The payload goes to the first tombstone or a new slot and every other slot keeps its number and payload; refused with `NoSpace` exactly when holes and free bytes together are too few, so fragmentation alone never refuses; a refused insert leaves the slots and the bytes as they were. The page is compacted only when it must be, and the free bytes go down by exactly the payload and, for a new slot, 6. |
| `SlottedPage.SlottedPage.Get` | crates/ferrite-core/src/slotted_page.rs:146-157 | The payload of a live slot; tombstones and missing slots are told apart. |
| `SlottedPage.SlottedPage.Delete` | crates/ferrite-core/src/slotted_page.rs:159-166 | That slot becomes a tombstone, all others are unchanged, and so is every byte outside its six in the directory. |
| `SlottedPage.SlottedPage.SetOverflow` | crates/ferrite-core/src/slotted_page.rs:168-175 | Only the flag of that slot changes, and no byte outside its six in the directory. |
| `SlottedPage.SlottedPage.Compact` | crates/ferrite-core/src/slotted_page.rs:178-205 | The same slots with the same payloads, packed from the end of the page in the order of the slots, and no holes left. |
| `SlottedPage.SlottedPage.Reclaimable` | crates/ferrite-core/src/slotted_page.rs:89-100 | The free bytes including holes. |
| `SlottedLayout.ReclaimableIsMore` | crates/ferrite-core/src/slotted_page.rs:82-100 | What can be reclaimed is never less than the contiguous free bytes. |
| `SlottedCheck.Validate` | crates/ferrite-core/src/slotted_page.rs:207-249 | True exactly for well-formed pages: slots in range, tombstones zeroed, payloads above the directory and apart. |
| `SlottedCheck.WellFormedHolds` | crates/ferrite-core/src/slotted_page.rs:207-249 | A page is well formed exactly when it holds slots, and then it holds those read from it and no others: so every page produced passes. |
| `SlottedCheck.NoOverlap` | crates/ferrite-core/src/slotted_page.rs:242-247 | On ranges sorted by start, comparing neighbours finds every overlap. |
| `SlottedCheck.Parse` | crates/ferrite-core/src/slotted_page.rs:58-67 | Accepts exactly the well-formed pages. |
| `SlottedBytes.PageHeader` | crates/ferrite-core/src/slotted_page.rs:263-265 | A page begins with the number of slots and where the payloads begin, two bytes each. |
| `SlottedBytes.PageSlot` | crates/ferrite-core/src/slotted_page.rs:267-284 | Slot i is at 8 + 6 i: offset and length of its payload and 0, or 2 for an overflow descriptor; 0, 0 and 1 for a tombstone. |
| `SlottedBytes.Space` | crates/ferrite-core/src/slotted_page.rs:82-100 | The free bytes in numbers: what lies between the slots and the payloads, and the page without 8 bytes, 6 for each slot, and the live payloads. |
| `SlottedBytes.AcceptedPages` | crates/ferrite-core/src/slotted_page.rs:207-249 | Which pages are accepted, byte by byte. |
| `Records.PutRecord` | crates/ferrite-core/src/slotted_page.rs:288-356 | A payload of 1 to 65536 bytes is stored, and no page in use changes: inline behind a 0 when it has at most the page size less 15, and otherwise in pieces, all but the last as long as a page can hold, each alone on its page, listed in a descriptor alone on the home page, whose slot is flagged. The pages are the next that the pager gives, in order, the home page last. It fails exactly when the size is wrong or the page numbers to be had are fewer than the pages needed, and then the pages taken are given back. |
| `Records.GetRecord` | crates/ferrite-core/src/slotted_page.rs:359-414 | What reading an id gives, whatever the file holds, damaged descriptors included: the payload, or the error of the first thing that is wrong: the page, its bytes, the slot, the descriptor, a piece, the length. |
| `Records.RecordReadBack` | crates/ferrite-core/src/slotted_page.rs:359-414 | A record that is in the file is read as it was put, in one piece. |
| `Records.PieceDecides` | crates/ferrite-core/src/slotted_page.rs:393-414 | When the descriptor and the pieces before it can be read, the first piece that cannot decides the error. |
| `Records.DeleteRecord` | crates/ferrite-core/src/slotted_page.rs:371-386 | Whatever the id leads to. An id that leads nowhere, or to a descriptor that cannot be read, changes nothing. Otherwise the pages that the slot lists, if it is a descriptor, go to the free list, the last one first, up to one that is not in the file; when all went the slot is a tombstone, with all others as they were. When a listed page is free already, or listed twice, no free list is left; and the pager is in order afterwards exactly when the home page is not on the list by then, or keeps its link. |
| `Records.WholeToFree` | crates/ferrite-core/src/slotted_page.rs:371-386 | For a record that is whole these are exactly the pages of its pieces, all of them live, and none its home page. |
| `Records.RecordKept` | crates/ferrite-core/src/slotted_page.rs:288-386 | A record depends on its own pages only, so any change of other pages keeps it. |
| `RecordStore.PutKeeps` | crates/ferrite-core/src/slotted_page.rs:288-356 | Of all the records of a file no two share a page: a put keeps that, under an id not used before. |
| `RecordStore.DeleteKeeps` | crates/ferrite-core/src/slotted_page.rs:371-386 | So does a delete, which leaves a tombstone and every other record where it was. |
| `RecordStore.Put` | crates/ferrite-core/src/slotted_page.rs:288-356 | The stored payloads are those before and the new one, although pages are recycled. |
| `RecordStore.Fetch` | crates/ferrite-core/src/slotted_page.rs:359-368 | Reading the id of a stored record gives its payload, of a deleted one the tombstone. |
| `RecordStore.Remove` | crates/ferrite-core/src/slotted_page.rs:371-386 | The stored payloads are those before without that one; an id that is refused changes nothing. An id that names a piece of a record is not refused: unless the piece reads as a descriptor, that record cannot be read any more, and every other record and tombstone is as before. |
| `RecordStore.PieceGone` | crates/ferrite-core/src/slotted_page.rs:371-386 | With a tombstone in place of one of its pieces a record gives the error of a deleted slot; all other records are read as before. |
| `RecordStore.RunRecords` | crates/ferrite-core/src/slotted_page.rs:288-386 | Any run of puts and deletes in a new file: every record put and not deleted has its payload, every deleted one its tombstone, and no two puts ever had the same id. |
| `RecordStore.RunAndRead` | crates/ferrite-core/src/slotted_page.rs:288-386 | Reading after any run gives what was put, exactly unless it was deleted since. |
| `RecordBytes.DescriptorHead` | crates/ferrite-core/src/slotted_page.rs:331-338 | A descriptor byte by byte: 1, the length of the record in four bytes, the number of pieces in two, |
| `RecordBytes.DescriptorPiece` | crates/ferrite-core/src/slotted_page.rs:331-338 | and for each piece its page in eight and its slot in two. |
| `RecordBytes.ReadAs` | crates/ferrite-core/src/slotted_page.rs:359-414 | How a slot is read: after 0 as it is, after 1 as a descriptor of the right size whose pieces have the length it says, 1 to 65536; anything else is corrupt. |
| `RecordBytes.PiecesReadAs` | crates/ferrite-core/src/slotted_page.rs:393-414 | The pieces are read one after the other, and the first that cannot be read decides. |
| `Records.DescriptorParts` | crates/ferrite-core/src/slotted_page.rs:416-439 | The fields of an overflow descriptor are read back. |
| `Records.OverflowChunks` | crates/ferrite-core/src/slotted_page.rs:416-439 | The chunks listed are read, ten bytes to each; a descriptor of another length is refused. |
| `Records.ChunksReadBack` | crates/ferrite-core/src/slotted_page.rs:416-439 | The chunks of a descriptor are read back. |

## Left out

- BPlusTree.BTree.Insert: after `Overflow` nothing is claimed about the tree but that it holds no page; the program has panicked, or a page is corrupt, or the pager ran out of its 2^64 page numbers half-way.
- BPlusTree.BTree.Delete: after `Overflow` nothing is claimed about the tree but that it holds no page.
- BPlusTree.BTree.VerifyIntegrity: only that it accepts valid trees and reports their figures; the source checks too little to reject every invalid one.
- BPlusTree.OpenTree: for the root of a valid tree and for what is refused; `open` also accepts an inner page of a tree, and a free page that still has the type of a tree page, and checks nothing else.
- TreeStore.PageStore.Take: the pool has one client at a time, which works on one of the trees of the file; no frame waits for the log, as the tree marks no page with a sequence number. Several clients are in `PoolModel`.
- BTreeRange.BTreeRangeIter.Next: for a tree that does not change while the iterator is in use.
- BufferPool.BufferPool.PinPage: asks that the page is neither the header page 0 nor a free one; `fetch_page` accepts both.
- BufferPool.BufferPool.UnpinPage: as the guards call it; the public `unpin_page` (crates/ferrite-core/src/buffer_pool.rs:626) can be called without a guard, after which pins are no longer the outstanding guards. `PoolModel` has no such event.
- BufferPool.BufferPool.FlushPage: for a page no guard is writing; the source waits for the page's lock. Waiting, deadlock and progress are not modelled.
- BufferPool.BufferPool.FlushAll: when no guard is writing any page, as for `FlushPage`.
- BufferPool.BufferPool.DropGuard: the release of the page lock and the loss of the pin are one step.
- Replacer.LruKReplacer.RecordAccess: the access counter does not wrap around at 64 bits.
- Records.DeleteRecord: once a page was freed twice it says which pages keep their bytes and that there is no free list when the pages are freed, not what writing the home page then makes of it.
- RecordStore.Remove: an id that is no record's is followed up when it is refused or names a piece that does not read as a descriptor; for any other, `Records.DeleteRecord` says what happens. Home pages of deleted records keep their tombstone for good, as in the source.
- I/O errors inside the pager: page reads and writes succeed. A failing log append, sync, rename or hook is modelled.
- JSON and UTF-8: a codec with decode(encode(v)) = v and a test for text keys. Schema validation is a predicate on the map that stays the same for a database.
- Error messages: errors of one kind are one value.
- The operating system: a rename is atomic; after a loss of power the directory is one that was synced or written later, and stays so. File locks, symbolic links and the format manifest are not modelled.
- Database.Open: of a stored schema only that storing one may fail and syncs the directory; reading one back, and its refusal when another is asked for, are not modelled.
- Hit, miss and eviction counters, memory budgets and their conversion to frames.
- The command line, the socket server, import and export, benchmarks, the workload generator and the Python and TypeScript clients.
