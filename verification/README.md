# TinyDB, verified

A Dafny model of TinyDB, a small relational engine that keeps its tables in one page file, and proofs of what its
storage, its index, its log, its queries and its lock promise. `dafny verify dfyconfig.toml` checks everything.

What is modelled, from the bottom up:

- **Page file** (`Storage`, `BufferPool`): pages of fixed size with an 11-byte header, the last-in-first-out free
  list that is threaded through the freed pages, and the buffer pool whose entries are shared with the handles given
  out for them. A body that is too long for its page is cut off without an error, as in the source; the models say
  exactly when that happens instead of ruling it out.
- **B+ tree** (`NodeCodec`, `NodeEdits`, `SearchTree`, `OrderedAnswers`, `TreePages`, `TreeState`, `TreeScan`,
  `BPlusTree`, `TreeRuns`): the index class works on the bytes of the page file. Ghost fields give its separators
  and leaves and the map that they stand for, and every method keeps an invariant that covers search order, sizes,
  the leaf chain, the content of each page and the ownership of every page of the file, for any page size and order:
  also for leaves whose link or whose entries a page cuts off. `AnyHeight` and
  `TreeHeights` (module `TreesOfAnyHeight`) have search trees of any height: lookup from the root, and every edit of
  a node and its parent anywhere in such a tree.
- **Log and recovery** (`WalCodec`, `WalFile`, `Recovery`, `Transactions`): frames, torn logs, replay, and crash
  recovery with any number of interrupted attempts. The checksum is any function from bytes to 32-bit words. No code
  under `tinydb/` ever appends a MUTATE record: the serial log whose recovery is proved is that of a client which the
  repository does not have.
- **Heap** (`RowCodec`, `HeapSlots`, `HeapScans`, `Heap`, `HeapRuns`): rows in the bytes of one page, walked slot by
  slot, scans of pages whose last row was cut off, and whole runs in which updates also move rows.
- **Header page** (`CatalogCodec`, `Catalog`, `CatalogRuns`): file metadata and the table list on page 0, lists that
  do not fit there included.
- **Query side** (`Tokens`, `Lexer`, `Layout`, `Predicates`, `Grammar`, `Parser`, `PredicateText`, `Evaluation`,
  `Joins`): from SQL text to tokens to expressions and back; evaluation with NULL; nested-loop and hash join.
  `Layout` and `Grammar` tell the language without lexer and parser, which take exactly its texts.
- **Reader-writer lock** (`ReaderWriterLock`): a state machine over the steps of any number of threads, with waits,
  notifications and timeouts. Which of several waiting writers a notification reaches is left open.

Where the source changes things step by step the model does too: classes with the same fields, loops over the same
offsets. Each such method is proved against a function of the values before and after, and the lemmas are about
those functions.

Properties that the code does not have are stated as results. Each has a lemma with the input or the family of
inputs on which it fails, and the exact condition under which it holds:

- Undo runs forward, so a page that a loser wrote twice ends at an intermediate content
  (`TwiceWrittenLoserStays`); a page comes back right exactly when it is `Undoable` (`RecoveredPage`).
- A record written after a reopen or a scan overwrites the log's start (`ReopenedLogLosesRecord`,
  `AppendKeepsRecords`).
- A row that an update moved survives its deletion (`MovedRowSurvivesDelete`, `DeletedRow`); updated once more it is in
  the scan twice, and a deleted row that is updated is there again (`DeletionExact`, `UpdateExact`).
- A row that outgrows its page without an error makes every scan raise, is skipped, or reads back with its last value
  shortened (`ScanCut`, `RowCut`, `Heap.Append`).
- INT 0 and FLOAT +0.0 are read back as NULL, and nothing else changes (`RowSurvives`, `RowUnchanged`).
- The hash join returns nothing when ON is written right side first, and so loses rows that the nested loop finds
  (`ReversedOnFindsNothing`, `ReversedOnLosesRow`, `HashJoinExact`).
- A node or a page whose bytes do not fit its page is not read back (`NodeSurvives`, `PageSurvives`, `RootReadBack`).
- An insertion that finds no room in the root's page, or in that of a leaf that is alone, leaves a root that cannot be
  read (`BPlusTree.Insert`, `EnoughKeys`, `RootCanBeLost`), silently as long as the node is within its limit of keys.
- A leaf that links to another one and is split after a page cut off its link hides all later leaves from range and
  full scan, though every key is still found (`LinkIsCut`, `BPlusTree.Insert`, `FullScan`, `ScanCanMissKeys`).
- A table list that does not fit the header page is cut off there without an error, and no catalog loads again
  (`CutIsLost`, `OversizedListIsLost`, `Catalog.Flush`).
- A change through a page handle whose entry has left the pool is lost (`ChangePage`, `ChangeThenFlush`).
- Freeing a page that is free already closes the free list to a cycle (`FreedTwice`, `FileStore.FreePage`).
- A writer that times out wakes no reader, so that one can sleep until its own timeout beside a free lock
  (`TimedOutWriterStallsReader`, `StallExact`, `RunStalls`).

## Model

| member | source | states |
|---|---|---|
| Storage.PageSurvives | tinydb/storage.py:139-155 | a written page reads back as it was exactly when its body fits the room behind the page header |
| Storage.ParseOfRaw | tinydb/storage.py:195-200 | otherwise it reads back with its body cut to that room, and with the same number, type and lsn |
| Storage.FreeChainTail | tinydb/storage.py:277-287 | the page that the head of the free chain links to is the head of the rest of the chain |
| Storage.FreeChainPush | tinydb/storage.py:295-306 | a page that links to the old head, put in front, makes a chain again |
| Storage.FreeChainFrame | tinydb/storage.py:150-155 | writes to pages that are not free leave the free chain as it is |
| Storage.FreeChainOverwritten | tinydb/storage.py:150-155 | other bytes on a page keep the free chain exactly when the page is not free or links on as before |
| Storage.FreedTwice | tinydb/storage.py:295-306 | freeing a page that is free already leaves a head from which no chain ends |
| Storage.FileStore.AllocPage | tinydb/storage.py:277-292 | takes the most recently freed page, or a new one at the end of the file when none is free; nothing else changes |
| Storage.FileStore.FreePage | tinydb/storage.py:295-306 | puts a page in front of the free list, which stays a list exactly when the page was not in it; refuses the header page |
| Storage.FileStore.WritePage | tinydb/storage.py:150-155 | changes the bytes of that page and of no other; keeps the free list exactly when the page is not free or its link is as before |
| BufferPools.WriteBack | tinydb/storage.py:230-235 | writing a dirty page back and calling it clean changes nothing for any reader |
| BufferPools.DropClean | tinydb/storage.py:237-247 | taking a clean page out of the pool changes nothing for any reader |
| BufferPools.PutSlot | tinydb/storage.py:223-229 | a page put into the pool is what its readers see, and the readers of other pages see what they saw |
| BufferPools.AllClean | tinydb/storage.py:230-235 | with no dirty page in the pool, the disk has what the readers see |
| BufferPools.BufferPool.EvictIfFull | tinydb/storage.py:237-247 | makes room by taking out the oldest entry without a pin, never a pinned one; raises exactly when all are pinned; no reader sees a difference |
| BufferPools.BufferPool.Get | tinydb/storage.py:211-221 | gives a handle for the page as readers see it, changes no reader's view, keeps every pinned page and the capacity |
| BufferPools.BufferPool.Put | tinydb/storage.py:223-229 | pools a page for later writing; readers of it see it and all other views stay; the pool stays right exactly when the page can be written back as it is |
| BufferPools.BufferPool.ChangePage | tinydb/storage.py:256-274 | a change through any handle is seen by the readers of that page alone when the handle's entry is pooled, and by nobody when it is not |
| BufferPools.BufferPool.ChangeThenFlush | tinydb/storage.py:230-274 | after a flush the disk has a change that fits exactly when the entry is pooled, and what the readers saw before otherwise |
| BufferPools.BufferPool.FlushAll | tinydb/storage.py:230-235 | afterwards nothing is dirty, no view changed, and the disk equals the view |
| NodeCodec.NodeSurvives | tinydb/index.py:383-431 | decoding the encoded node, cut to a page's room, gives the node exactly when its size fits the room, or it is a last leaf that fits but for its link, since a missing link reads as 0 |
| NodeCodec.NodePageSurvives | tinydb/index.py:383-431 | the same through the page file |
| NodeCodec.KeyRoundTrip | tinydb/index.py:434-472 | an INT key reads back at any offset, with the offset behind it |
| NodeCodec.WriteNode | tinydb/index.py:383-400 | writes the node's page and nothing else |
| NodeCodec.ReadNode | tinydb/index.py:403-431 | reads the node that the page's bytes decode to, or raises |
| NodeEdits.ChildIndex | tinydb/index.py:491-496 | the child whose separators enclose the key |
| NodeEdits.BisectRight | tinydb/index.py:499-508 | the place behind all keys that are not larger |
| SearchTree.Located | tinydb/index.py:161-176 | a key is in the tree exactly when it is in the leaf that the separators lead to |
| SearchTree.KeysSorted | tinydb/index.py:111-124 | the leaves from left to right have the keys in increasing order |
| SearchTree.LeafSplit | tinydb/index.py:220-250 | splitting a leaf keeps the entries, the order, the chain and the page numbers of the whole tree |
| SearchTree.PairReshared | tinydb/index.py:278-306 | moving an entry between neighbouring leaves with the new separator keeps all of that |
| SearchTree.PairMerged | tinydb/index.py:308-347 | merging two neighbouring leaves keeps all of that and drops one page and one separator |
| OrderedAnswers.AnswersUnique | tinydb/index.py:94-124 | there is only one list of the wanted rowids in increasing key order, so range and full scan have one right answer |
| OrderedAnswers.PickAnswers | tinydb/index.py:94-109 | picking the wanted entries of sorted leaves from left to right gives that list |
| TreeScan.BrokenMisses | tinydb/index.py:111-124 | a scan that ends before the last leaf does not answer for the map |
| TreeScan.ScanLength | tinydb/index.py:111-124 | it has fewer rowids than there are keys, and one that does not has as many |
| TreePages.PageCensus | tinydb/storage.py:277-306 | with every page used once, the page count is one for the header, the tree's pages, the free ones and everyone else's |
| TreePages.LeafReadBack | tinydb/index.py:383-431 | a written leaf reads back as it is, or without its link, or not at all, by its number of entries |
| TreePages.LinkIsCut | tinydb/index.py:383-431 | a leaf of 26 entries on a page of 512 bytes loses its link and nothing else |
| TreePages.RootReadBack | tinydb/index.py:383-431 | a root is read back from its page when its separators have room there, and reading it raises when they have not |
| TreeState.RoomToSplit | tinydb/index.py:142-143 | minimum fill bounds the number of leaves, so a root whose separators fit for one more key than there is has room for the split of a full leaf |
| BPlusTreeIndex.BPlusTree.Create | tinydb/index.py:75-81 | for any page size and order, an empty tree on a page of its own, standing for the empty map; pages of others are untouched |
| BPlusTreeIndex.BPlusTree.Seek | tinydb/index.py:86-92 | exactly the rowid stored for the key, or nothing; raises on a lost root |
| BPlusTreeIndex.BPlusTree.Range | tinydb/index.py:94-109 | exactly the rowids of the keys in the range that the chain reaches, in key order, which are all of them when the chain is not broken; the walk ends; raises on a lost root |
| BPlusTreeIndex.BPlusTree.FullScan | tinydb/index.py:111-124 | exactly the rowids that the chain reaches, in key order; these are the answer if and only if the chain is not broken; raises on a lost root |
| BPlusTreeIndex.BPlusTree.FindLeafWithPath | tinydb/index.py:168-176 | the leaf in charge of the key and the nodes passed on the way with the children taken; raises on a lost root |
| BPlusTreeIndex.BPlusTree.Insert | tinydb/index.py:129-143 | for any key and tree: with room the map gets the key with this rowid and changes nowhere else, the whole invariant is kept, and the chain is broken when the split leaf had lost its link; without room in the root or in a lone leaf the root cannot be read any more, or the insertion raises and changes nothing when the leaf is too long for the page header; which of these, and whether it raises, is decided by the state before; the pages of others are kept |
| BPlusTreeIndex.BPlusTree.SplitExact | tinydb/index.py:129-143 | a leaf is split exactly when the key is new and the one leaf in charge of it is full; the chain is severed exactly when that leaf links to another and has no room for its link |
| BPlusTreeIndex.BPlusTree.RoomForKey | tinydb/index.py:142-143 | a key has room whenever the root takes the separators between as many leaves as one more key can fill at their minimum, or the lone leaf's page one more entry |
| BPlusTreeIndex.BPlusTree.FullAtMost | tinydb/index.py:142-143 | no tree holds more keys than full leaves do below a root that fits its page, or than a lone leaf's page takes |
| BPlusTreeIndex.BPlusTree.SplitAndPropagate | tinydb/index.py:181-252 | repairs an overfull leaf without changing the map when the root's page has room, and loses the root when it has not; an empty path splits nothing but a root that is a leaf |
| BPlusTreeIndex.BPlusTree.SplitRoot | tinydb/index.py:182-214 | an overfull root leaf becomes two leaves below a new root |
| BPlusTreeIndex.BPlusTree.Delete | tinydb/index.py:145-156 | the map loses the key and changes nowhere else; the invariant, the page count and the pages of others are kept; raises on a lost root and changes nothing |
| BPlusTreeIndex.BPlusTree.Rebalance | tinydb/index.py:257-276 | repairs a leaf that is one key short, by exchange or by merge, without changing the map |
| BPlusTreeIndex.BPlusTree.RedistributeLeft | tinydb/index.py:278-291 | after the exchange both leaves are within their limits and the invariant holds |
| BPlusTreeIndex.BPlusTree.RedistributeRight | tinydb/index.py:293-306 | the same with the right neighbour |
| BPlusTreeIndex.BPlusTree.MergeIntoLeft | tinydb/index.py:308-330 | after the merge the invariant holds, the map is the same, and the page given up is free |
| BPlusTreeIndex.BPlusTree.MergeIntoRight | tinydb/index.py:332-352 | the same when the first leaf is merged into the second |
| BPlusTreeIndex.BPlusTree.MaybeShrinkRoot | tinydb/index.py:354-359 | a root without separators is freed and its only child becomes the root |
| BPlusTreeIndex.BPlusTree.Height | tinydb/index.py:365-374 | 1 for a root leaf, 2 otherwise; never more; raises on a lost root |
| BPlusTreeIndex.BPlusTree.Structure | tinydb/index.py:181-359 | separators increase and bound their neighbours, leaves below the root hold between the minimum and `order` keys, and the links visit the leaves in order and end at 0, or earlier in a chain that was cut |
| BPlusTreeIndex.BPlusTree.PagesDecode | tinydb/index.py:383-431 | each page of the tree decodes to the node it is meant to hold |
| BPlusTreeIndex.BPlusTree.Census | tinydb/index.py:181-359 | `page_ids` are the pages reachable from the root, and with the free pages, all distinct, and those of others they make up the file |
| BPlusTreeIndex.BPlusTree.ChainLink | tinydb/index.py:106-108 | a leaf's link names the next leaf or is 0, and 0 at any but the last one only in a chain that was cut |
| TreeRuns.Build | tinydb/index.py:75-156 | for any page size and order, any run of insertions and deletions on a new file keeps the whole invariant, and the tree stands for the map that the run leads to, up to the first insertion without room; there is none while minimal leaves for the keys have room, there is one when full leaves have none, and where a lone leaf's page sets the limit these are the same |
| TreeRuns.Run | tinydb/index.py:75-156 | after any such run that was not stopped seek answers by that map, full scan exactly when the chain is not broken, which it never is where a page takes a leaf before its split, and then range, too; the height is 1 or 2, and the file's pages are the header page, the tree's `page_ids` and the free list, each page once |
| TreeRuns.LoneLeafExact | tinydb/index.py:129-143 | where a page has no room for the entries of a leaf before its split, a run keeps the map exactly while the keys fit one page |
| TreeRuns.EnoughKeys | tinydb/index.py:129-143 | for any page size and order, as many ascending insertions as full leaves have no room for are a run in which one finds none |
| TreeRuns.RootCanBeLost | tinydb/index.py:129-143 | on pages of 512 bytes with leaves of four keys, 133 insertions in ascending order lose the root |
| TreeRuns.ScanCanMissKeys | tinydb/index.py:111-143 | on pages of 512 bytes with leaves of 25 keys, insertions in descending order come to a full scan that misses keys before 52 of them |
| TreesOfAnyHeight.SearchedInOrder | tinydb/index.py:161-166 | in a search tree of any height the entries below every node increase and stay within its bounds |
| TreesOfAnyHeight.Descends | tinydb/index.py:161-166 | at any height a key is below a node exactly when it is below the child that the separators lead to, with the same rowid |
| TreesOfAnyHeight.FindLeaf | tinydb/index.py:161-166 | the walk from the root of a tree of any height ends at a leaf that has the key exactly when the tree has |
| TreesOfAnyHeight.EditAnywhere | tinydb/index.py:220-352 | a split, exchange or merge of children of any node, anywhere in a tree of any height, leaves a search tree of that height under the root with the same entries in order, no page used twice, and no node changed but the parent and the two children |
| TreesOfAnyHeight.RootShrunk | tinydb/index.py:354-359 | at any height, a root without separators can be given up: its only child is the root of a tree one level lower with the same entries on the other pages |
| TreesOfAnyHeight.SameTree | tinydb/index.py:220-352 | writing pages outside a subtree leaves its entries, its order and its pages as they are |
| AnyHeight.KidsInOrder | tinydb/index.py:161-166 | one level: over ordered subtrees between their separators the entries increase and stay within the bounds |
| AnyHeight.SplitAny | tinydb/index.py:225-244 | a split, of a leaf or an internal node, leaves two search trees on either side of the separator with the same entries in order |
| AnyHeight.BorrowLeftAny | tinydb/index.py:278-288 | borrowing from the left keeps entries, order and the number of children, at any height |
| AnyHeight.BorrowRightAny | tinydb/index.py:293-303 | borrowing from the right likewise |
| AnyHeight.JoinAny | tinydb/index.py:311-340 | merging in either direction likewise |
| WalCodec.RecordRoundTrip | tinydb/wal.py:51-104 | decoding the frame of a record gives the record, for any checksum function |
| WalCodec.ScanFrames | tinydb/wal.py:158-172 | scanning the frames of any records gives exactly those records and ends clean |
| WalCodec.ScanPrefix | tinydb/wal.py:214-224 | scanning any byte prefix gives exactly the records whose frames are whole, and then stops or reports corruption, by the length of the torn rest |
| WalCodec.WholeAndTorn | tinydb/wal.py:214-224 | the whole frames and the torn rest make up the prefix, and the rest is shorter than the next frame |
| WalCodec.ScannedIsSound | tinydb/wal.py:68-104 | every record that a scan of any bytes gives comes from a frame with the magic and a body whose checksum both fields hold |
| WalCodec.ScanUnsound | tinydb/wal.py:68-87 | whole frames and then a frame of the length that it announces, with another magic or checksum: the scan gives exactly the records before it and reports corruption |
| WalCodec.ScanChangedBody | tinydb/wal.py:68-87 | so a record whose body was changed, under another checksum, ends the scan before it, wherever it is in the log |
| WalCodec.SoundIsScanned | tinydb/wal.py:158-172 | a frame with the magic and both checksums is scanned as the record in its body, or ends the scan with what is wrong in the body |
| WalCodec.BodyDecodes | tinydb/wal.py:88-104 | a body decodes exactly when it holds the fixed fields and a kind that exists, and one as long as its fields say is the body of that record |
| WalFile.ScanLog | tinydb/wal.py:158-172 | the loop over a log's frames computes the scan, which is pinned by `ScanFrames` for sound frames and by `ScannedIsSound` and `ScanUnsound` for all others |
| WalFile.Wal.constructor | tinydb/wal.py:111-113 | a log of whole frames is taken up behind its records: all their lsns are below the next one, whatever the records are |
| WalFile.LsnsGoOn | tinydb/wal.py:174-182 | the lsn recovered from such a log is one above the largest in it, and 1 for an empty one |
| WalFile.Wal.Append | tinydb/wal.py:133-146 | writes a record under the next lsn at the descriptor's position, whatever the log is; to a log of whole frames that adds it behind the others exactly when the position is the end |
| WalFile.Wal.AppendRec | tinydb/wal.py:126-131 | the frame goes to the descriptor's position, whatever is there |
| WalFile.Wal.Truncate | tinydb/wal.py:152-156 | an empty log, with lsns from 1 again |
| WalFile.AppendAll | tinydb/wal.py:133-172 | a log that was empty scans as exactly the appended records with the lsns 1, 2, 3 and so on |
| WalFile.AppendKeepsRecords | tinydb/wal.py:126-162 | from any position of the descriptor in a log, an append adds its record to those of the log exactly when the position is the end |
| WalFile.ScannedFits | tinydb/wal.py:158-172 | the records that a scan gives never take more bytes than the log has, whatever its bytes are |
| WalFile.ReopenedLogLosesRecord | tinydb/wal.py:110-131 | an append after a reopen overwrites the first record |
| Recovery.PageStore.ReplayWal | tinydb/wal.py:202-235 | the two loops compute the replay of the scanned records; nothing is written when the scan fails, and a page that is not there ends the replay at its first record |
| Recovery.RedoPage | tinydb/wal.py:226-233 | replay leaves a page at the image of its last record, after for a winner and before for a loser, and leaves other pages alone |
| Recovery.RecoveredPage | tinydb/wal.py:226-233 | for a serial log and any crash state, replay gives the committed content of a page exactly when the page is undoable |
| Recovery.SingleWriteUndoable | tinydb/wal.py:226-233 | a page is undoable when its last writer committed or wrote it once |
| Recovery.CrashRecovery | tinydb/wal.py:202-235 | after any number of interrupted replays, a full replay gives a page its committed content exactly when the page is undoable; pages that are not in the log never change |
| Recovery.TornLogRecovery | tinydb/wal.py:202-235 | the same, interrupted replays included, for a log that was torn at any byte, with respect to its whole records; it raises exactly when the torn rest has a header |
| Recovery.TwiceWrittenLoserStays | tinydb/wal.py:226-233 | a loser that wrote a page twice leaves its first change behind |
| Transactions.TxManager.Begin | tinydb/tx.py:40-48 | gives an id that the log has not seen; refused exactly when a transaction is active |
| Transactions.TxManager.Change | tinydb/wal.py:133-146 | a change with its true before-image keeps the log serial and leaves the committed content alone |
| Transactions.TxManager.Commit | tinydb/tx.py:50-55 | makes the current content the committed one; refused for any but the active transaction |
| Transactions.TxManager.Rollback | tinydb/tx.py:57-61 | ends the transaction with the committed content as it was, and keeps the log serial |
| Transactions.TxManager.Checkpoint | tinydb/tx.py:63-69 | the log starts anew from the pages as they are, with an active transaction's changes among them |
| Transactions.TxManager.CrashNow | tinydb/tx.py:40-79 | whatever a manager's run left in the log, a crash now is recovered to the committed content exactly as far as the pages are undoable |
| RowCodec.ValueSurvives | tinydb/types.py:95-122 | a stored value reads back as it was, with INT 0 and FLOAT +0.0 as NULL |
| RowCodec.TextValueSurvives | tinydb/types.py:69-80 | no text is taken for NULL |
| RowCodec.FieldAccepted | tinydb/row_layout.py:26-33 | exactly these values are accepted: NULL, an integer of eight signed bytes in INT, eight bytes in FLOAT, a text under the length limit in TEXT, any boolean in BOOL; the others raise by their kind |
| RowCodec.RowAccepted | tinydb/row_layout.py:20-34 | a row is encoded exactly when each value fits its column, the rowid eight bytes and the number of columns two |
| RowCodec.RowSurvives | tinydb/row_layout.py:20-49 | a stored row with any padding behind it reads back with its rowid and its values, zeros as NULL |
| RowCodec.RowUnchanged | tinydb/row_layout.py:20-49 | it comes back unchanged exactly when it holds no INT 0 and no FLOAT +0.0 |
| RowCodec.EncodeRow | tinydb/row_layout.py:20-34 | the loop over the values gives the row's bytes, or the first error |
| RowCodec.DecodeRow | tinydb/row_layout.py:37-49 | the loop over the columns gives the row's values, or the first error |
| HeapSlots.SlotAt | tinydb/heap.py:73-81 | the walk over a body finds each slot's length, flag and row at its offset |
| HeapSlots.SlotOverwritten | tinydb/heap.py:126-138 | the patches of an update in place change that slot to the new row with zeros behind it, and no other slot |
| HeapSlots.SlotMarked | tinydb/heap.py:103-103 | setting the flag byte changes that slot to a deleted one and no other slot |
| HeapSlots.DeletedRow | tinydb/heap.py:88-106 | deleting leaves the other rows as they are; the row is gone from the next scan exactly when no alive slot with its rowid comes after the first |
| HeapSlots.UpdatedRow | tinydb/heap.py:108-152 | updating leaves the other rows as they are; the next scan shows the row once with its new values exactly under the same condition |
| HeapSlots.DeletedInPlace | tinydb/heap.py:88-106 | a row with one slot is taken out of the scan, and nothing moves |
| HeapSlots.UpdatedInPlaceOrMoved | tinydb/heap.py:126-149 | a row with one slot keeps its place when the new row fits there, and is last otherwise |
| HeapSlots.MovedRowSurvivesDelete | tinydb/heap.py:94-106 | after an update that moved the row, deleting it changes nothing, and the row is still in the scan |
| HeapSlots.AppendedRow | tinydb/heap.py:49-65 | an appended row's rowid is above all others, and the row is last in the scan |
| HeapSlots.RowidsStayBounded | tinydb/heap.py:53-53 | every operation keeps rowids at or below their slot's position |
| HeapSlots.NeverMovedStays | tinydb/heap.py:108-152 | as long as every update fits in place, every alive row has one slot |
| HeapScans.ScanWhole | tinydb/heap.py:67-86 | a scan of a body gives the rows of its alive slots |
| HeapScans.ScanCut | tinydb/heap.py:67-86 | a scan of a body that was cut inside its last slot keeps the rows before it, and raises, skips the last one, or reads it from what is left |
| HeapScans.RowCut | tinydb/row_layout.py:37-49 | what is left of a row is read only when the cut is inside the last value and what is left of that decodes, and then all other values are as they were |
| HeapScans.LastValueCut | tinydb/types.py:50-122 | a last value that was cut reads back as a shortened text or as the integer of its low bytes, and raises for FLOAT and BOOL |
| HeapFile.Heap.Append | tinydb/heap.py:49-65 | adds the slot when the new body fits the page, and leaves a page that scans as `ScanCut` says when it does not; raises, writing nothing, exactly when a value, the count or the body has no field to fit in |
| HeapFile.Heap.Scan | tinydb/heap.py:67-86 | on any page whatever its bytes give, and on a page of slots exactly the rows of the alive ones in order |
| HeapFile.Heap.Delete | tinydb/heap.py:88-106 | marks the first slot with the rowid; raises on a body without a count |
| HeapFile.Heap.Update | tinydb/heap.py:108-152 | the updated slots in each case: not found, in place, moved, refused, and moved but cut off, with what a scan then gives |
| HeapRuns.HeapIsTable | tinydb/heap.py:49-152 | after any run of appends, deletions and updates, moved rows included, the scan's rows are those of a table that the same operations were done on, as long as no row that was moved is updated or deleted |
| HeapRuns.DeletionExact | tinydb/heap.py:88-106 | in any state of such a run a deletion takes exactly the row with that rowid out of the scan if and only if the row was never moved |
| HeapRuns.UpdateExact | tinydb/heap.py:108-152 | in any state of such a run an update of a row that has a slot does what the table's update does if and only if the row is there and was never moved |
| HeapRuns.ProperDeletion | tinydb/heap.py:88-106 | which is if and only if no alive slot with the rowid comes after the first one |
| HeapRuns.Perform | tinydb/heap.py:49-152 | in any state of such a run an operation that goes on the table goes on the page if and only if the page has room for its slots and their number has a field |
| HeapRuns.Run | tinydb/heap.py:49-152 | the same for the heap's own methods on its page |
| CatalogCodec.CatalogBack | tinydb/catalog_codec.py:31-77 | decoding an encoded table list gives the list in order, whatever is behind it |
| CatalogCodec.CatalogCut | tinydb/catalog_codec.py:31-77 | an encoded list that is cut anywhere does not decode |
| CatalogCodec.EncodeEntries | tinydb/catalog_codec.py:31-47 | the nested loops give the list's bytes, or raise exactly when a count or a name is too long for its field |
| CatalogCodec.DecodeEntries | tinydb/catalog_codec.py:50-77 | the nested loops decode a list, or raise |
| CatalogPage.MetaBack | tinydb/storage.py:112-122 | opening reads the free head back and finds magic and page size right |
| CatalogPage.FlushedIsLoaded | tinydb/executor/catalog.py:25-62 | a flushed list is what loading finds, over bytes of any older list, and the metadata in front is untouched |
| CatalogPage.CutIsLost | tinydb/executor/catalog.py:25-62 | a flushed list that does not fit the page can never be loaded again |
| CatalogPage.OversizedListIsLost | tinydb/executor/catalog.py:25-62 | one table with a name of 600 bytes on a page of 512 is such a list |
| CatalogPage.FreeHeadKeepsList | tinydb/storage.py:160-174 | flushing the free head leaves the table list as it was |
| CatalogPage.Catalog.Load | tinydb/executor/catalog.py:25-40 | reads the list from the header page, keeps the entries when there is none, and raises when it does not decode |
| CatalogPage.Catalog.Flush | tinydb/executor/catalog.py:42-62 | raises exactly when a length has no field to fit in; otherwise the list is saved exactly when it fits the page, and when it does not, loading raises from then on; the metadata is always kept whole |
| CatalogPage.Catalog.FlushFreeHead | tinydb/storage.py:160-174 | the header page has the current free head and the same list |
| CatalogPage.Catalog.CreateTable | tinydb/executor/catalog.py:64-78 | a new table, last in the list, on a page that no table has and that is not free; refused for a name that is there |
| CatalogPage.Catalog.DropTable | tinydb/executor/catalog.py:80-88 | the table leaves the list and its page becomes the head of the free list; refused for a name that is not there |
| CatalogRuns.Run | tinydb/executor/catalog.py:25-88 | after any run on a new file, whatever lists came in between: when the last list fits, another catalog loads the current tables in order with the pages that the free list gave them, distinct and not free; when it was cut off, loading raises; the metadata is whole with the free head of the last flush |
| Lexer.LexRender | tinydb/parser/lexer.py:54-158 | reading tokens that were written with single spaces gives them back and one end token |
| Lexer.LexAgain | tinydb/parser/lexer.py:54-158 | whatever was read can be written, and reading that gives the same tokens |
| Layout.LexerExact | tinydb/parser/lexer.py:54-158 | a text is read as these tokens exactly when it lays them out: each as it is spelled, keywords in any case, with or without blanks, newlines and comments between them, and no longer token in front |
| Layout.KeywordAnyCase | tinydb/parser/lexer.py:118-131 | every keyword in upper, lower or mixed case, with anything behind it that does not carry the word on, is read as that keyword |
| Lexer.QuotedDoubled | tinydb/parser/lexer.py:82-106 | any string with its quotes doubled reads back |
| Lexer.Tokenize | tinydb/parser/lexer.py:54-158 | the loop over the characters reads the text as `LexerExact` says, or raises |
| Predicates.ParsePrint | tinydb/parser/predicate.py:16-129 | parsing the tokens of an expression, with no more parentheses than needed, gives it back and stops at any token that cannot carry it on |
| Predicates.PrintParse | tinydb/parser/predicate.py:16-129 | whatever was parsed can be printed, and parsing that gives it again |
| Predicates.PrintInjective | tinydb/parser/predicate.py:16-129 | two expressions with the same tokens are the same |
| Grammar.ParserExact | tinydb/parser/predicate.py:16-150 | the parser takes the tokens for an expression, up to the end, exactly when the grammar spells the expression with them |
| Grammar.Unambiguous | tinydb/parser/predicate.py:16-150 | tokens spell one expression at most |
| Grammar.NumberMeans | tinydb/parser/predicate.py:153-157 | a number is taken exactly when its digits have no two points, and raises otherwise |
| Predicates.BetweenMeans | tinydb/parser/predicate.py:62-71 | BETWEEN parses to two comparisons of the same operand |
| Predicates.PrimaryBack | tinydb/parser/predicate.py:92-126 | an operand, in parentheses when it needs them, parses back |
| Predicates.ComparisonBack | tinydb/parser/predicate.py:39-79 | a comparison, NULL test or IN list parses back |
| Predicates.InBack | tinydb/parser/predicate.py:82-89 | the value list of IN parses back |
| ParserCursor.Parser.ParseExpression | tinydb/parser/predicate.py:16-22 | moves the cursor and gives the result or the error that the grammar says |
| ParserCursor.Parser.ParseAndExpression | tinydb/parser/predicate.py:25-31 | likewise for conjunctions |
| ParserCursor.Parser.ParseComparisonTail | tinydb/parser/predicate.py:43-79 | likewise for what follows a first operand |
| ParserCursor.Parser.ParsePrimary | tinydb/parser/predicate.py:92-130 | likewise for operands |
| ParserCursor.Parser.ParseValue | tinydb/parser/predicate.py:133-150 | what each token gives: a number whose digits have no two points is that literal and any other raises, texts, TRUE, FALSE and NULL are themselves, all else is unexpected |
| ParserCursor.Parser.Advance | tinydb/parser/__init__.py:92-96 | moves on by one token and never past the end token |
| PredicateText.TextMeansExpression | tinydb/parser/__init__.py:32-47 | the text of an expression is read and parsed to that expression, up to the end |
| PredicateText.TextIsParsed | tinydb/parser/__init__.py:32-47 | lexer and grammar together take a text for an expression exactly when it lays out tokens that spell it |
| PredicateText.OneMeaning | tinydb/parser/__init__.py:32-47 | a text means one expression at most |
| PredicateText.ParseText | tinydb/parser/__init__.py:32-47 | the lexer's loop followed by the parser's cursor gives an expression exactly when the text lays out tokens that spell it, and the error of the first step that fails otherwise |
| Evaluation.NumbersCompare | tinydb/executor/select.py:186-204 | two numbers, booleans among them, compare as the real numbers do, by all six operators |
| Evaluation.IntegersCompare | tinydb/executor/select.py:186-204 | two integers compare as integers do |
| Evaluation.TextsCompare | tinydb/executor/select.py:186-204 | two texts compare by one order and by equality |
| Evaluation.TextsDiffer | tinydb/executor/select.py:196-203 | which of two texts is less is decided by the first bytes in which they differ, and a proper prefix is less |
| Evaluation.TextsTotal | tinydb/executor/select.py:196-203 | of two texts exactly one is less, or they are equal |
| Evaluation.TextsTransitive | tinydb/executor/select.py:196-203 | the order of texts is transitive |
| Evaluation.NullCompares | tinydb/executor/select.py:187-188 | every comparison with NULL is false, on either side |
| Evaluation.MixedCompare | tinydb/executor/select.py:189-203 | a number and a text are not equal, and asking for their order raises |
| Evaluation.ColumnMeans | tinydb/executor/select.py:207-219 | a column has the row's value or NULL, and a qualified one that of the qualified name, if there is one, before that of the plain name |
| Evaluation.ConnectiveMeans | tinydb/executor/select.py:161-165 | AND and OR of truth values, and a left side that decides keeps the right one from being looked at, so that it cannot raise |
| Evaluation.InMeans | tinydb/executor/select.py:168-171 | IN holds exactly when the value is the same as a listed literal, NULL among NULLs, and NOT IN is its negation |
| Evaluation.NullTestMeans | tinydb/executor/select.py:182-185 | IS NULL and IS NOT NULL go by the value of the operand alone |
| Evaluation.ValueMeans | tinydb/executor/select.py:172-176 | an operand alone holds when it is there and neither zero, false nor an empty text |
| Evaluation.BetweenHolds | tinydb/parser/predicate.py:62-71 | BETWEEN over integers includes both bounds |
| Joins.HashJoinIsNestedLoop | tinydb/executor/join.py:53-87 | with ON a single equation whose left side resolves in the left rows and whose right side in the right table, the hash join returns the nested loop's rows in the same order, NULL keys included |
| Joins.HashJoinExact | tinydb/executor/join.py:72-87 | for any equation the hash join returns no more rows, and the same list exactly when joined rows have the same key on their own |
| Joins.ReversedOnFindsNothing | tinydb/executor/join.py:220-223 | with ON written right side first the hash join returns nothing |
| Joins.ReversedOnLosesRow | tinydb/executor/join.py:18-87 | two rows that the nested loop joins, and with ON written right side first the hash join does not |
| Joins.EquationMeans | tinydb/executor/select.py:179-193 | an equation never raises and holds exactly when both sides are not NULL and equal |
| Joins.LeftSurvivesMerge | tinydb/executor/join.py:181-194 | merging leaves the left side's value as it was in the left row |
| Joins.RightSurvivesMerge | tinydb/executor/join.py:181-194 | merging leaves the right side's value as it was in the right row |
| Joins.RightValue | tinydb/executor/join.py:189-193 | every value of the right row is in the merged row, under its name or the qualified one |
| Joins.MergeRows | tinydb/executor/join.py:181-194 | the loop over the right row's keys merges the rows, in whatever order it takes them |
| Joins.NestedLoopPicks | tinydb/executor/join.py:33-50 | one block for each left row, in order: the row merged with each right row that ON joins it with, in table order, once, and with no others |
| Joins.NestedLoopRaises | tinydb/executor/join.py:33-50 | the join raises exactly when ON raises for some pair of rows |
| Joins.ComparisonJoins | tinydb/executor/join.py:38-43 | ON that compares an integer column of the left row with one of the joined table joins exactly the pairs whose integers compare so |
| Joins.NoOnJoinsAll | tinydb/executor/join.py:38-43 | without ON every pair is joined |
| Joins.LeftIsInnerFilled | tinydb/executor/join.py:33-50 | the LEFT join is the INNER join with one NULL-extended row in the place of each unmatched left row, so its length is that of the INNER join and the number of unmatched rows |
| Joins.LeftColumnsSurvive | tinydb/executor/join.py:33-50 | the rows of the LEFT join come in left row order, each with all columns of its left row but `rowid` and those that the joined table's name qualifies |
| Joins.ExecNestedLoopJoin | tinydb/executor/join.py:18-50 | the nested loops compute the join that `NestedLoopPicks` and `NestedLoopRaises` describe, or raise |
| Joins.BuildTable | tinydb/executor/join.py:73-77 | the table has under each key the right rows with that key, in order, and no row without a key |
| Joins.ExecHashJoin | tinydb/executor/join.py:53-87 | the loops compute the hash join, and the nested-loop join for LEFT |
| ReaderWriterLock.RunSafe | tinydb/lock.py:25-63 | in every interleaving the counters equal the threads in each phase, with at most one writer and no reader beside it |
| ReaderWriterLock.WriterIsAlone | tinydb/lock.py:25-63 | while a thread writes no other thread reads or writes |
| ReaderWriterLock.ReaderAdmitted | tinydb/lock.py:29-34 | a reader is admitted only when no thread writes or waits to write |
| ReaderWriterLock.WriteTested | tinydb/lock.py:43-56 | after any run, a test for the write lock ends with the thread writing exactly when no thread read or wrote, in time or too late; otherwise it waits or gives up, and no other thread changes |
| ReaderWriterLock.ReadTested | tinydb/lock.py:25-34 | likewise for the read lock, which is given exactly when no thread wrote or waited to write |
| ReaderWriterLock.Released | tinydb/lock.py:36-63 | a thread that gives its lock back has none, and no other thread changes |
| ReaderWriterLock.TimedOutCall | tinydb/lock.py:43-56 | a call that gives up leaves the counters as if it had never been made |
| ReaderWriterLock.FreeLockIsTaken | tinydb/lock.py:29-63 | no lost wake-up for writers: when nobody holds the lock and a writer waits, a waiting writer has been notified, and whichever runs gets the lock |
| ReaderWriterLock.NotStalledAdmits | tinydb/lock.py:25-34 | when no writer writes or waits, every waiting reader can go on at once and is admitted, exactly when the lock is not stalled |
| ReaderWriterLock.StallExact | tinydb/lock.py:43-56 | the one kind of step that stalls the lock: the last waiting writer times out while readers read and another reader sleeps |
| ReaderWriterLock.RunStalls | tinydb/lock.py:25-63 | a run that ends stalled has such a step in it |
| ReaderWriterLock.TimedOutWriterStallsReader | tinydb/lock.py:25-63 | a run of three threads that ends with the lock free and a reader that only its own timeout wakes |
| ReaderWriterLock.RWLock.AcquireRead | tinydb/lock.py:25-34 | one passage through the waiting loop is the reader's step, whose outcome is `ReadTested` |
| ReaderWriterLock.RWLock.AcquireWrite | tinydb/lock.py:43-56 | one passage through the waiting loop is the writer's step, whose outcome is `WriteTested` |
| ReaderWriterLock.RWLock.ReleaseRead | tinydb/lock.py:36-41 | gives the read lock back; the last reader notifies one sleeping writer |
| ReaderWriterLock.RWLock.ReleaseWrite | tinydb/lock.py:58-63 | gives the write lock back, notifies one sleeping writer and all waiting readers |

## Left out

- BPlusTreeIndex.BPlusTree.constructor: does not model opening an existing tree from its root page number alone, because `page_ids` then names the root page only; the ghost tree is given by the caller.
- TreeRuns.Run: INT keys, and orders from 1 on; a run ends at the first insertion without room.
- Index keys other than INT: their codec arms are the same length-prefixed layout.
- Trees higher than 2: an overfull internal root is never split (`tinydb/index.py:185`), so none is reachable from `create`. `TreesOfAnyHeight` has them as nodes by page number, without page bytes, fill limits and leaf chain.
- BPlusTreeIndex.BPlusTree.SplitAndPropagate: the arm for an internal child never runs at these heights; it is `TreesOfAnyHeight.EditAnywhere`.
- The path of a search holds copies of nodes; the model has them as values that are read anew from their pages.
- HeapRuns.Run: runs in which a row that was moved before is neither updated nor deleted, and that fit the page; what those operations do is `UpdateExact`, `DeletionExact` and `ScanCut`.
- HeapFile.Heap.Append: rows with one value per column, which is what INSERT passes on; the source drops values beyond the columns.
- HeapFile.Heap.Update: likewise rows with one value per column, which is what UPDATE passes on.
- Storage.FileStore.WritePage: pages of the file only; writing at a number past its end would leave a hole in the file.
- BufferPools.BufferPool.ChangeThenFlush: changes that can be written back as they are; a longer body is cut as `PageSurvives` says.
- NodeCodec.ReadNode: a key with the tag of another type than INT is taken for damaged.
- Recovery.CrashRecovery: needs transaction ids that are unique in the log, because the source starts them anew with every manager.
- Transactions.TxManager.Rollback: the pages are taken to be at their committed content afterwards; the copying back is the caller's (`tinydb/database.py:102-113`).
- Transactions.TxManager.Checkpoint: does not refuse an active transaction, as the source does not; its changes then count as committed.
- Rollback over CREATE and DROP TABLE: only page bodies are restored, not page types, free head or page count.
- The pool's eviction order is the order of insertion; a hit does not renew an entry, whatever its comment says.
- Transactions.TxManager.Change: a client's step; no code under `tinydb/` appends a MUTATE record (`tinydb/tx.py:50-61` logs only commits and rollbacks).
- Evaluation.Compare: floats are finite real numbers, so NaN and the infinities are left out; the value of a literal and of a float's bytes are parameters.
- Joins.HashJoinIsNestedLoop: no table aliases and no self-joins, because an alias is looked up as a table name.
- Lexer.Tokenize: characters are classified as ASCII; line and column of tokens, which only serve error messages, are not kept.
- Predicates.Primary: a number keeps its digits in the place of the value that `int` or `float` makes of them; the limit that Python sets to the digits of an `int` is left out.
- PredicateText.ParseText: a bare predicate instead of a statement; semicolons are not filtered out.
- Keyword comparison ignores case in the parser; the lexer gives keywords in upper case, and so do the model's tokens.
- HeapScans.LastValueCut: names and texts in files are byte sequences, so UTF-8 decoding errors do not occur; a text that is cut inside a character raises in the source.
- The file system, fsync, locks on files, clocks; a write of a page is a single step.
- The planner and EXPLAIN, aggregates, ORDER BY, LIMIT, projection, DDL and transaction-control parsing, constraint checks, the command line.
