# CS525 storage stack: buffer pool, B+-tree index and record manager

This project models the core of a teaching database storage stack written in C.
It has three parts:

- **The buffer pool** (`assign3_record_manager/buffer_mgr.c`). A fixed ring of
  page frames sits over a page file. Each frame holds a page number, a pin
  (fix) count, a dirty bit and a page buffer. `pinPage` brings a page into a
  frame under FIFO or LRU, and `unpinPage`, `markDirty`, `forcePage` and
  `forceFlushPool` manage pins and write-back. The ring's `head` and `tail`
  cursors drive replacement.
- **The B+-tree index** (`assign4_b+-tree/btree_mgr.c`). Trees have at most two
  keys per node and three children. Leaves are chained through `children[2]`,
  and deletion only marks a slot with a tombstone. A registry
  (`btreeInstances`) holds a node and an entry counter per open tree. A scan
  walks the leaf chain with a global position.
- **The record manager** (`assign4_b+-tree/record_mgr.c`). A page directory
  holds one entry per data page, with a record count and a first free slot.
  `insertRecord` places each record in the first entry with room and appends
  entries as needed. A scan cursor `next()` walks the slots page by page and
  skips the pages that hold directory entries. `getRecordSize` and
  `parseKeyInfo` are modelled too.

The storage manager (`assign1_storage_manager/storage_mgr.c`) is modelled only
as the collaborator the buffer pool calls. A page file is a sequence of pages,
and `readBlock`, `writeBlock`, `appendEmptyBlock` and `ensureCapacity` are pure
functions over it.

## How the model is built

Each part has the same three layers:

- A **specification module** (`BufferPoolSpec`, `BTreeSpec`, `RecordSpec`)
  states every operation as a function over a value state. Those states are a
  `Pool` of frames, an arena of tree nodes with a registry, and a directory
  `Table` with a `ScanState`.
- A **properties module** (`BufferPoolProps`, `BTreeProps`, and the lemmas of
  `RecordSpec`) proves what the system promises about those functions.
- A **manager module** (`BufferMgr`, `BTreeMgr`, `RecordMgr`) keeps the state
  in classes whose fields the methods update in place, with the loops of the
  C code. Each method is proved to leave exactly the state the matching
  specification function gives, and to keep the class invariant `Valid()`.

Pointers become indices:

- A frame pointer is an index into the frame array. `nextFrame` and
  `previousFrame` are arrays that are set once when the pool is built and
  never written again.
- A `TreeNode *` is an index into the node arena `nodes`, and NULL is `None`.
  Every node carries a ghost level (0 for leaves, one more than its children
  for internal nodes). The level gives recursion down the tree a measure.
- A tree handle is an index into `handles`.

Memory from `malloc` that the C code does not initialise is read as zero: a
fresh node has zero keys, zero RIDs, no children and no tombstones, and a
fresh frame buffer is a zero page.

### Where the code departs from a textbook design

The model follows the code as written in each of these places:

- **FIFO.**
  - The residency check of FIFO (`buffer_mgr.c:151-163`) starts at `head` and stops as soon as it reaches `head`, so it never runs. A FIFO pin therefore always reads the page, even when the page is already cached.
  - Once the pool is full, the victim search runs from `tail` to `head`. On the first eviction that walk covers frame N-1 alone, because `tail` is still the last frame and `head` has come back to frame 0. The newest page is the one evicted, not the oldest.
  - When FIFO finds no victim, it reads the page into `head`'s buffer and leaves that frame's page number alone.
- **LRU.**
  - When the victim search reaches a frame while `tail == head`, `replacePage` rebinds that frame's successor, which may be pinned.
  - After a hit, `head` moves to the hit frame. While free frames remain, the next miss goes to `head`, so a frame that is still in use can be overwritten.
- **`pinPage`.** It discards the strategy's return code and always answers `RC_OK`.
- **Splitting internal nodes.** When a two-key internal node splits (`btree_mgr.c:222-248`), it builds its two halves from its own three children: the left half takes children 0 and 1, the right half children 1 and 2, so the middle child hangs under both. The child that split stays where it was. The stub it returned is dropped, and with it the stub's second child, the new node holding the upper keys of that split. `findKey` no longer reaches those keys, while the leaf chain still does (`BTreeScenarios.InternalSplitLosesKey`). This already happens in a one-level tree, and it can lose the very key being inserted (`BTreeScenarios.InsertedKeyLostByInternalSplit`).
- **`deleteKey`.** It descends by `getChildIndex`. That function treats a second key of 0 as absent, while `findKey` counts separators (see Findings).
- **`deleteBtree`.** It matches ids by prefix (`strncmp` over the length of the given id), so deleting `"idx"` removes `"idx-2"`.
- **`getNumNodes` and `getNumEntries`.** They find the registry slot by pointer distance from slot 0's handle (see Findings). Each handle is a separate `malloc`, so in C that distance is not defined; the model numbers handles in allocation order, the most favourable reading.
- **`next()` in the record manager.** At the end of a scan it steps the slot back. Each further call steps it back again, so the slot can become negative.

## Model

| member | source | states |
|---|---|---|
| StorageMgr.ReadBlock | assign1_storage_manager/storage_mgr.c:127-156 | succeeds exactly for a page inside the file and returns that page's bytes, else RC_READ_NON_EXISTING_PAGE |
| StorageMgr.WriteBlock | assign1_storage_manager/storage_mgr.c:230-260 | succeeds exactly for 0 <= pageNum <= file size; the written page holds the data and every other page is unchanged; otherwise RC_WRITE_FAILED |
| StorageMgr.AppendEmptyBlock | assign1_storage_manager/storage_mgr.c:274-303 | the file grows by one zero page and keeps its old pages |
| StorageMgr.EnsureCapacity | assign1_storage_manager/storage_mgr.c:308-325 | the file has at least n pages, the old pages are kept, and any added pages are zero |
| BufferPoolSpec.EmptyFrames | assign3_record_manager/buffer_mgr.c:17-27 | n frames, each with no page, no pins, clean and zeroed |
| BufferPoolSpec.InitPool | assign3_record_manager/buffer_mgr.c:32-64 | a fresh pool (head at frame 0, tail at the last frame) meets the pool invariant |
| BufferPoolSpec.PrevNext | assign3_record_manager/buffer_mgr.c:17-51 | previousFrame and nextFrame are inverse around the closed ring |
| BufferPoolSpec.FindPageFrom | assign3_record_manager/buffer_mgr.c:271-283 | the first frame along the ring that caches the page, with every frame before it caching another page |
| BufferPoolSpec.FindUnpinnedFrom | assign3_record_manager/buffer_mgr.c:311-351 | the first unpinned frame along the ring, with every frame before it pinned |
| BufferPoolSpec.LowestMatch | assign3_record_manager/buffer_mgr.c:384-392 | the lowest-index frame caching the page, with no lower frame caching it |
| BufferPoolSpec.WriteBack | assign3_record_manager/buffer_mgr.c:316-326 | write-back of a victim changes neither frames nor cursors nor the read count |
| BufferPoolSpec.FifoSteps | assign3_record_manager/buffer_mgr.c:165-192 | the FIFO victim walk from tail to head takes fewer steps than there are frames |
| BufferPoolSpec.FindFrameInBufferPool | assign3_record_manager/buffer_mgr.c:271-283 | a frame found caches the page |
| BufferPoolSpec.Rebind | assign3_record_manager/buffer_mgr.c:328-345 | the chosen frame takes the new page and one more pin and keeps its dirty bit and buffer; every other frame is unchanged |
| BufferPoolSpec.ReadInto | assign3_record_manager/buffer_mgr.c:257-266 | reading a page into a frame keeps the pool invariant (cursors inside the ring, no more used frames than frames); what it reads is stated by BufferPoolProps.ReadIntoKeepsPages |
| BufferPoolSpec.AllocateEmptyFrame | assign3_record_manager/buffer_mgr.c:296-309 | taking head's free frame keeps the pool invariant; which frame it takes is stated by BufferPoolProps.LruMissWithFreeFrameTakesHead |
| BufferPoolSpec.UpdatePageAndFrame | assign3_record_manager/buffer_mgr.c:285-294 | moving head to the hit frame keeps the pool invariant; the pin it adds is stated by BufferPoolProps.LruHitPinsResidentFrame |
| BufferPoolSpec.FifoEvict | assign3_record_manager/buffer_mgr.c:170-189 | evicting a FIFO victim keeps the pool invariant; the victim is stated by BufferPoolProps.FifoEvictsFirstUnpinnedFromTail |
| BufferPoolSpec.FifoPin | assign3_record_manager/buffer_mgr.c:143-219 | a FIFO pin keeps the pool invariant; its behaviour is stated by the FIFO lemmas of BufferPoolProps |
| BufferPoolSpec.LruPin | assign3_record_manager/buffer_mgr.c:226-269 | an LRU pin keeps the pool invariant; its behaviour is stated by the LRU lemmas of BufferPoolProps |
| BufferPoolSpec.ForceFlushPool | assign3_record_manager/buffer_mgr.c:97-137 | flushing the pool changes no frame's page number |
| BufferPoolSpec.ReplacePage | assign3_record_manager/buffer_mgr.c:311-351 | replacement keeps the pool invariant, and a returned frame is a frame of the pool |
| BufferPoolSpec.ReplaceVictim | assign3_record_manager/buffer_mgr.c:316-346 | rebinding the chosen victim (or its successor when tail == head) keeps the pool invariant |
| BufferPoolSpec.PinPage | assign3_record_manager/buffer_mgr.c:357-375 | pinPage keeps the pool invariant and answers RC_OK whatever the strategy returned |
| BufferPoolSpec.UnpinPage | assign3_record_manager/buffer_mgr.c:380-394 | unpinning changes no page number, cursor, file or I/O count |
| BufferPoolSpec.MarkDirty | assign3_record_manager/buffer_mgr.c:399-420 | marking changes no page number, cursor, file or I/O count |
| BufferPoolSpec.ForcePage | assign3_record_manager/buffer_mgr.c:425-460 | forcing changes no page number, cursor or read count |
| BufferPoolSpec.FlushFrom | assign3_record_manager/buffer_mgr.c:111-128 | the flush loop changes no page number, cursor, read count or frame count |
| BufferPoolSpec.PinAll | assign3_record_manager/buffer_mgr.c:357-375 | any sequence of pins keeps the pool invariant |
| BufferPoolProps.FillInOrder | assign3_record_manager/buffer_mgr.c:193-215 | the first n pins into a fresh pool fill frames 0..n-1 in order, one read each (FIFO for any pages, LRU for distinct ones) |
| BufferPoolProps.FifoCachesRepeatedPageTwice | assign3_record_manager/buffer_mgr.c:149-163 | FIFO never detects residency: the same page pinned twice occupies two frames and is read twice |
| BufferPoolProps.WriteBackFailsOnlyOnNegativePage | assign3_record_manager/buffer_mgr.c:172-181 | a dirty victim is written back only if dirty, and the write fails exactly for a negative page number |
| BufferPoolProps.FifoAlwaysReads | assign3_record_manager/buffer_mgr.c:206-218 | a FIFO pin of a valid page reads it and hands out its bytes unless a write-back failed |
| BufferPoolProps.FifoEvictsFirstUnpinnedFromTail | assign3_record_manager/buffer_mgr.c:165-192 | a full pool evicts the first unpinned frame from tail: it takes the page with one pin, becomes head, tail moves past it, nothing else changes |
| BufferPoolProps.FifoWithoutVictimOverwritesHeadBuffer | assign3_record_manager/buffer_mgr.c:165-215 | with no victim, FIFO reads the page into head's buffer while head keeps its old page number and pins |
| BufferPoolProps.FifoFirstEvictionOnlyConsidersLastFrame | assign3_record_manager/buffer_mgr.c:165-192 | the first eviction in a filled pool looks at frame N-1 alone |
| BufferPoolProps.FifoScenarioEvictsNewerPage | assign3_record_manager/buffer_mgr.c:143-219 | two frames: pin 10, 20, unpin both, pin 30; page 20 is evicted and page 10 stays |
| BufferPoolProps.FindPageFindsResident | assign3_record_manager/buffer_mgr.c:271-283 | the LRU residency search finds a page exactly when some frame caches it |
| BufferPoolProps.LruHitPinsResidentFrame | assign3_record_manager/buffer_mgr.c:234-240 | an LRU hit adds a pin to the caching frame, makes it head, sets tail past the old head, does no I/O and hands out the frame's bytes |
| BufferPoolProps.LruMissWithFreeFrameTakesHead | assign3_record_manager/buffer_mgr.c:243-246 | a miss with free frames goes to head whatever it holds and counts one more used frame |
| BufferPoolProps.LruEvictsFirstUnpinnedFromTail | assign3_record_manager/buffer_mgr.c:311-335 | a miss in a full pool with tail != head evicts the first unpinned frame from tail, writing it back if dirty |
| BufferPoolProps.LruMissWithAllPinnedFails | assign3_record_manager/buffer_mgr.c:247-254 | a miss in a full, all-pinned pool fails with RC_WRITE_FAILED and changes nothing |
| BufferPoolProps.LruPinKeepsResidencyUnique | assign3_record_manager/buffer_mgr.c:226-269 | LRU never lets two frames cache the same page |
| BufferPoolProps.LruMissRebindsAtMostOneFrame | assign3_record_manager/buffer_mgr.c:242-262 | a miss changes the page number of at most one frame, and only to the pinned page |
| BufferPoolProps.VictimRebindsOneFrame | assign3_record_manager/buffer_mgr.c:328-345 | replacing a victim rebinds exactly one frame to the page and keeps every other page number |
| BufferPoolProps.ReadIntoKeepsPages | assign3_record_manager/buffer_mgr.c:257-266 | the read that ends a pin changes bytes, not page numbers |
| BufferPoolProps.RebindKeepsUnique | assign3_record_manager/buffer_mgr.c:328-345 | binding one frame to an uncached page keeps residency unique |
| BufferPoolProps.LruHitThenUnpinRestoresPins | assign3_record_manager/buffer_mgr.c:380-394 | unpin after an LRU hit restores every pin count |
| BufferPoolProps.LruScenarioEvictsLeastRecentlyUsed | assign3_record_manager/buffer_mgr.c:226-269 | three frames: pin 1, 2, 3, unpin all, re-pin and unpin 1, pin 4; page 2 is evicted |
| BufferPoolProps.RepinThenMissEvictsSecondFrame | assign3_record_manager/buffer_mgr.c:226-269 | on three unpinned frames holding pages 1, 2 and 3, pinning and unpinning page 1 and then pinning page 4 puts page 4 in frame 1 and keeps pages 1 and 3 |
| BufferPoolProps.UnpinLowest | assign3_record_manager/buffer_mgr.c:384-392 | unpinPage takes one pin off the lowest frame caching the page |
| BufferPoolProps.LruScenarioEvictsPinnedPage | assign3_record_manager/buffer_mgr.c:336-345 | two frames: pin 1, 2, unpin both, pin 3, pin 4; page 3 is evicted while pinned and page 4 inherits its pin |
| BufferPoolProps.TwoMissesEvictPinnedPage | assign3_record_manager/buffer_mgr.c:311-351 | on two unpinned frames holding pages 1 and 2, pinning 3 and then 4 puts page 3 in frame 1 with one pin, then page 4 in frame 1 with two pins: the pinned page 3 is evicted |
| BufferPoolProps.LruScenarioMissAfterHitRebindsHitFrame | assign3_record_manager/buffer_mgr.c:285-309 | three frames: pin 1 twice, then 2; the frame of page 1 is rebound to page 2 and keeps both pins |
| BufferPoolProps.HitThenMissRebindsHitFrame | assign3_record_manager/buffer_mgr.c:243-246 | after a hit on page 1 in frame 0 with free frames left, a miss on page 2 rebinds frame 0 (three pins) and page 1 is no longer cached |
| BufferPoolProps.MarkDirtyMarksCachedFrame | assign3_record_manager/buffer_mgr.c:399-420 | markDirty dirties the caching frame and answers RC_OK; an uncached page gives RC_PAGE_NOT_FOUND and a null handle RC_INVALID_PARAMETER, with no change |
| BufferPoolProps.ForcePageWritesHandle | assign3_record_manager/buffer_mgr.c:425-460 | forcePage of a cached page writes the handle's bytes whatever the pins and cleans the frame; an uncached page writes nothing and answers RC_OK |
| BufferPoolProps.FlushFromWritesFlushable | assign3_record_manager/buffer_mgr.c:111-128 | when every write succeeds, the flush cleans exactly the dirty unpinned frames and leaves each page with the last such frame's bytes |
| BufferPoolProps.LastWriteOfSoleWriter | assign3_record_manager/buffer_mgr.c:111-128 | with one flushable frame caching a page, that page ends with the frame's bytes |
| BufferPoolProps.LastWriteOfNoWriter | assign3_record_manager/buffer_mgr.c:111-128 | with no flushable frame caching a page, the page is unchanged |
| BufferPoolProps.ForceFlushPoolPersistsDirtyFrames | assign3_record_manager/buffer_mgr.c:97-137 | each dirty unpinned frame's bytes reach its page and the frame is clean; everything else is unchanged; writeNumber grows by the number written |
| BufferPoolProps.FlushSkipsUnflushable | assign3_record_manager/buffer_mgr.c:111-128 | frames that are clean or pinned are skipped without effect |
| BufferPoolProps.ForceFlushPoolStopsAtFirstFailure | assign3_record_manager/buffer_mgr.c:116-122 | a refused write of the first flushable frame returns RC_WRITE_FAILED and changes nothing |
| BufferMgr.BuildRing | assign3_record_manager/buffer_mgr.c:17-51 | fresh frame, next and previous arrays: every frame empty, next[i] the following frame and previous[i] the preceding one around the ring |
| BufferMgr.BufferPool.constructor | assign3_record_manager/buffer_mgr.c:32-64 | the pool's state is the initial pool, and the ring's next links follow (i + 1) mod N |
| BufferMgr.BufferPool.WriteBackFrame | assign3_record_manager/buffer_mgr.c:318-326 | the new state and result are those of the write-back function |
| BufferMgr.BufferPool.ReadIntoFrame | assign3_record_manager/buffer_mgr.c:257-266 | the new state, code and handle are those of the read function |
| BufferMgr.BufferPool.FifoEvict | assign3_record_manager/buffer_mgr.c:170-189 | the new state, code and handle are those of evicting the frame found |
| BufferMgr.BufferPool.Fifo | assign3_record_manager/buffer_mgr.c:143-219 | the new state, code and handle are those of a FIFO pin |
| BufferMgr.BufferPool.FifoFull | assign3_record_manager/buffer_mgr.c:165-192 | the victim loop of a full pool ends in the state of a FIFO pin |
| BufferMgr.BufferPool.FindFrameInBufferPool | assign3_record_manager/buffer_mgr.c:271-283 | the do-while walk returns what the residency search gives |
| BufferMgr.BufferPool.UpdatePageAndFrame | assign3_record_manager/buffer_mgr.c:285-294 | the hit frame gains a pin and the cursors move as for a hit; the handle gets the frame's bytes |
| BufferMgr.BufferPool.AllocateEmptyFrame | assign3_record_manager/buffer_mgr.c:296-309 | head's frame is returned and the state is that of allocation |
| BufferMgr.BufferPool.ReplacePage | assign3_record_manager/buffer_mgr.c:311-351 | the do-while victim loop ends in the state and frame of replacement |
| BufferMgr.BufferPool.ReplaceVictim | assign3_record_manager/buffer_mgr.c:316-346 | the write-back and rebinding of the victim give the replacement state |
| BufferMgr.BufferPool.Lru | assign3_record_manager/buffer_mgr.c:226-269 | the new state, code and handle are those of an LRU pin |
| BufferMgr.BufferPool.PinPage | assign3_record_manager/buffer_mgr.c:357-375 | the new state and handle are those of pinPage under the pool's strategy |
| BufferMgr.BufferPool.UnpinPage | assign3_record_manager/buffer_mgr.c:380-394 | answers RC_OK and leaves the unpin state |
| BufferMgr.BufferPool.MarkDirty | assign3_record_manager/buffer_mgr.c:399-420 | state and code are those of markDirty |
| BufferMgr.BufferPool.ForcePage | assign3_record_manager/buffer_mgr.c:425-460 | state and code are those of forcePage |
| BufferMgr.BufferPool.ForceFlushPool | assign3_record_manager/buffer_mgr.c:97-137 | state and code are those of the flush |
| BufferMgr.BufferPool.GetFrameContents | assign3_record_manager/buffer_mgr.c:470-481 | a fresh array holding each frame's page number |
| BufferMgr.BufferPool.GetDirtyFlags | assign3_record_manager/buffer_mgr.c:487-497 | a fresh array holding each frame's dirty bit |
| BufferMgr.BufferPool.GetFixCounts | assign3_record_manager/buffer_mgr.c:503-512 | a fresh array holding each frame's pin count |
| BufferMgr.BufferPool.GetNumReadIO | assign3_record_manager/buffer_mgr.c:517-520 | the number of pages read |
| BufferMgr.BufferPool.GetNumWriteIO | assign3_record_manager/buffer_mgr.c:525-528 | the number of pages written |
| BTreeSpec.HeapOkSet | assign4_b+-tree/btree_mgr.c:141-153 | replacing one node by a node that is well formed in the new arena keeps the whole arena well formed |
| BTreeSpec.HeapOkAppend | assign4_b+-tree/btree_mgr.c:156-192 | appending nodes that are well formed in the grown arena keeps the whole arena well formed |
| BTreeSpec.InsertIntoLeafWithOneValue | assign4_b+-tree/btree_mgr.c:141-153 | the leaf holds two keys in order, the old key and the new one, each with its own RID; links and tombstones are unchanged |
| BTreeSpec.SplitLeaf | assign4_b+-tree/btree_mgr.c:156-192 | the arena grows by a stub and a right leaf, stays well formed, counts one node, and returns a one-key stub above the leaf |
| BTreeSpec.SplitLeafNodes | assign4_b+-tree/btree_mgr.c:156-192 | both halves are well formed, the left half links to the new right leaf, and the right leaf takes over the old link |
| BTreeSpec.SplitInternal | assign4_b+-tree/btree_mgr.c:228-248 | three one-key nodes are appended, the old arena is unchanged, and the new root is one level above the split node |
| BTreeSpec.SplitNodes | assign4_b+-tree/btree_mgr.c:228-248 | the new root and both halves are well-formed one-key nodes |
| BTreeSpec.SplitNodesOk | assign4_b+-tree/btree_mgr.c:233-247 | the new root and its two halves keep the arena well formed |
| BTreeSpec.AddNodeToTree | assign4_b+-tree/btree_mgr.c:195-250 | insertion below a node keeps the arena well formed, touches nothing above it, counts one entry, and returns at most a one-key stub one level up |
| BTreeSpec.SplitStub | assign4_b+-tree/btree_mgr.c:223-248 | a two-key node that receives a stub splits, counts one more node, and hands its new root up |
| BTreeSpec.AbsorbStub | assign4_b+-tree/btree_mgr.c:205-220 | a one-key node absorbs a stub and returns NULL, with the counts of the subtree insertion |
| BTreeSpec.Absorb | assign4_b+-tree/btree_mgr.c:204-221 | the node ends with two ordered keys, its own and the stub's, and stays a leaf or internal as it was |
| BTreeSpec.InsertKey | assign4_b+-tree/btree_mgr.c:253-269 | insertKey keeps the arena well formed and the levels of old nodes, and the new root is a node |
| BTreeSpec.ChildIndex | assign4_b+-tree/btree_mgr.c:104-107 | the child findKey takes: all keys before it are <= val and the key at it is > val |
| BTreeSpec.FindLeaf | assign4_b+-tree/btree_mgr.c:103-109 | the descent of findKey ends at a leaf |
| BTreeSpec.LiveSlot | assign4_b+-tree/btree_mgr.c:111-116 | the first slot holding val that is not tombstoned, or none exists |
| BTreeSpec.FindKey | assign4_b+-tree/btree_mgr.c:99-118 | success iff a live slot of the leaf findKey reaches holds the key, returning that slot's RID; otherwise RC_IM_KEY_NOT_FOUND |
| BTreeSpec.GetChildIndex | assign4_b+-tree/btree_mgr.c:299-307 | 0 iff val is below the first key; 1 iff val lies between the keys and the second key is positive; otherwise 2 |
| BTreeSpec.Tombstone | assign4_b+-tree/btree_mgr.c:288-296 | setting a tombstone keeps the arena well formed and its size |
| BTreeSpec.DeleteKey | assign4_b+-tree/btree_mgr.c:272-296 | a delete that succeeds keeps the arena well formed and its size |
| BTreeSpec.DeleteKeyOnFindPath | assign4_b+-tree/btree_mgr.c:272-296 | deletion along findKey's path never meets a NULL child and keeps the arena well formed |
| BTreeSpec.LeftmostLeaf | assign4_b+-tree/btree_mgr.c:310-314 | the walk down children[0] ends at a leaf |
| BTreeSpec.OpenTreeScan | assign4_b+-tree/btree_mgr.c:317-324 | a new scan stands at position 1 of a leaf |
| BTreeSpec.StoreResult | assign4_b+-tree/btree_mgr.c:356-362 | a RID is stored iff its page and slot are non-negative, and then unchanged |
| BTreeSpec.NextEntry | assign4_b+-tree/btree_mgr.c:327-369 | one nextEntry keeps the cursor valid and answers RC_OK or RC_IM_NO_MORE_ENTRIES, the latter with no result |
| BTreeSpec.FindInstance | assign4_b+-tree/btree_mgr.c:121-128 | the first registry slot for the tree, with no earlier slot for it |
| BTreeSpec.Counters | assign4_b+-tree/btree_mgr.c:121-128 | no counters iff no registry slot holds the tree; otherwise the counters of a slot holding it |
| BTreeSpec.Bump | assign4_b+-tree/btree_mgr.c:121-138 | counter updates keep the registry's length and trees |
| BTreeSpec.DeleteSlot | assign4_b+-tree/btree_mgr.c:68-76 | the first slot whose id starts with the given id, with no earlier slot matching |
| BTreeSpec.RemoveSlot | assign4_b+-tree/btree_mgr.c:71-72 | moving the last slot into the hole removes exactly that slot's instance |
| BTreeSpec.DeleteBtree | assign4_b+-tree/btree_mgr.c:68-76 | deleteBtree keeps the registry consistent; when no tree's id starts with the given id the registry is unchanged, and otherwise exactly the first slot whose id does is removed (the registry loses that one instance and nothing else) |
| BTreeSpec.OpenBtree | assign4_b+-tree/btree_mgr.c:53-60 | a handle found is a registered tree with the given id; none found means no slot from the start on has that id |
| BTreeProps.FirstInsertFillsRoot | assign4_b+-tree/btree_mgr.c:253-262 | a new tree's first insert fills root slot 0, counts one node and one entry, and findKey finds the key |
| BTreeProps.SplitLeafDistributesKeys | assign4_b+-tree/btree_mgr.c:156-192 | splitting a sorted full leaf keeps the two smallest keys in order in the leaf and puts the largest in the right leaf; each key keeps its RID; the stub's key is the right leaf's; the right leaf is spliced into the chain |
| BTreeProps.SplitLeafNodesDistributeKeys | assign4_b+-tree/btree_mgr.c:156-192 | the three keys of a leaf split are the old two plus the new one, in order across the halves when the leaf was sorted; the right leaf holds one live key and takes over the chain link |
| BTreeProps.SplitNodesDistributeKeys | assign4_b+-tree/btree_mgr.c:228-248 | an internal split hands the three separators out one per node, in order when the node was sorted; the left half keeps children 0 and 1, the right half children 1 and 2, and the new root points to both |
| BTreeProps.AbsorbOrdersSeparators | assign4_b+-tree/btree_mgr.c:206-218 | absorbing a stub yields two separators in order |
| BTreeProps.InsertKeyCounts | assign4_b+-tree/btree_mgr.c:253-269 | every insert counts one entry, and replaces the root with one more node exactly when a stub comes back |
| BTreeProps.InsertThenFindInLeafRoot | assign4_b+-tree/btree_mgr.c:99-118 | a key inserted into a root leaf without tombstones (keys in order when it holds two) is found afterwards, with its RID when it was new |
| BTreeProps.InsertThenFindInRoomyRoot | assign4_b+-tree/btree_mgr.c:141-153 | the case where the root leaf has room |
| BTreeProps.InsertThenFindInFullRoot | assign4_b+-tree/btree_mgr.c:156-192 | the case where the root leaf splits |
| BTreeProps.InsertThenFindUnderOneKeyRoot | assign4_b+-tree/btree_mgr.c:195-221 | in a tree whose root holds one key over two sorted leaves without tombstones, a key inserted is found with its RID, whether its leaf had room or split |
| BTreeProps.InsertThenFindInRoomyLeaf | assign4_b+-tree/btree_mgr.c:99-153 | in a tree of any depth, when the leaf on the key's path holds one key and the slot the key lands in has no tombstone, insertKey changes only that leaf, the root stays, and the key is found afterwards, with its RID when it was not found before |
| BTreeProps.AddIntoRoomyLeaf | assign4_b+-tree/btree_mgr.c:195-250 | below any node, when the leaf findKey reaches has room, addNodeToTree follows findKey's path, fills that leaf, counts one entry and returns NULL |
| BTreeProps.FindLeafAfterLeafUpdate | assign4_b+-tree/btree_mgr.c:99-109 | replacing the leaf findKey reaches by another leaf does not change the leaf it reaches |
| BTreeProps.FindLeafIgnoresTombstones | assign4_b+-tree/btree_mgr.c:103-109 | tombstones and RIDs do not change where findKey descends |
| BTreeProps.DeleteOnFindPathThenFind | assign4_b+-tree/btree_mgr.c:288-296 | after deleting a key (held at most once in its leaf) along findKey's path, findKey and a second delete no longer find it; an absent key was not found before either |
| BTreeProps.DeleteKeyFollowsFindOnShallowTrees | assign4_b+-tree/btree_mgr.c:279-307 | on a root leaf, and a one-level tree whose root has two ordered keys with a positive second key, deleteKey reaches the leaf findKey reaches |
| BTreeProps.GetChildIndexOnTwoKeyNodes | assign4_b+-tree/btree_mgr.c:299-307 | on two ordered keys with a positive second key, getChildIndex agrees with findKey's choice |
| BTreeProps.GetChildIndexOnOneKeyNodes | assign4_b+-tree/btree_mgr.c:299-307 | on a one-key node, a key at or above the separator goes to child 2 for delete but child 1 for find |
| BTreeProps.DeleteKeyTombstonesFirstLiveSlot | assign4_b+-tree/btree_mgr.c:288-296 | deleting from a leaf root tombstones the first live slot holding the key and nothing else, or reports not found |
| BTreeProps.DrainFromSecondSlot | assign4_b+-tree/btree_mgr.c:336-350 | from position 2 of a clean chain's first leaf, the scan yields the rest of the chain in order and ends |
| BTreeProps.ScanYieldsLeafChainInOrder | assign4_b+-tree/btree_mgr.c:317-353 | a scan yields every RID of the leaf chain leaf by leaf and slot by slot, deleted ones included, then NO_MORE_ENTRIES |
| BTreeProps.ScanOfEmptyTreeYieldsZeroRid | assign4_b+-tree/btree_mgr.c:327-353 | a scan of a tree with no key yields RID (0, 0) and ends |
| BTreeProps.ScanSkipsZeroSecondKey | assign4_b+-tree/btree_mgr.c:336-350 | a second key of 0 reads as an empty slot: its RID is skipped |
| BTreeProps.InsertIntoFullRootLeafSplits | assign4_b+-tree/btree_mgr.c:156-192 | inserting into a full root leaf makes the stub the root: one key (the largest), second key 0, children the two leaves, no third child |
| BTreeProps.DeleteAfterRootSplitReachesNullChild | assign4_b+-tree/btree_mgr.c:299-307 | after a root split, deleting a key at or above the separator reaches a NULL child, while findKey finds the key and deletion along findKey's path removes it |
| BTreeProps.DeleteOfThirdKeyReachesNullChild | assign4_b+-tree/btree_mgr.c:279-285 | inserting 1, 2, 3 and deleting 3 descends into a NULL child |
| BTreeProps.ScanAfterRootSplitYieldsKeyOrder | assign4_b+-tree/btree_mgr.c:327-353 | after a root leaf split, a scan yields the three RIDs in key order |
| BTreeProps.TombstoneStaysWithSlot | assign4_b+-tree/btree_mgr.c:141-153 | tombstones stay with slots: after a delete and a smaller insert, the deleted key is found again and the new one is not |
| BTreeProps.FindInstanceSeesOnlyTrees | assign4_b+-tree/btree_mgr.c:121-128 | registry lookup depends only on which tree each slot holds |
| BTreeProps.BumpRaisesCounters | assign4_b+-tree/btree_mgr.c:121-138 | the counter updates raise the counters of the given tree and of no other |
| BTreeProps.BumpsAdd | assign4_b+-tree/btree_mgr.c:121-138 | successive updates of one tree add up |
| BTreeProps.OpenBtreeFindsNewTree | assign4_b+-tree/btree_mgr.c:53-60 | openBtree passes over the slots before the first matching id |
| BTreeProps.CreateThenOpen | assign4_b+-tree/btree_mgr.c:41-60 | a tree created under a fresh id is opened under it with zero nodes and entries |
| BTreeProps.FindInstanceSkips | assign4_b+-tree/btree_mgr.c:121-128 | lookups agree when no slot in between matches |
| BTreeProps.DeleteBtreeMatchesPrefix | assign4_b+-tree/btree_mgr.c:68-76 | deleting "idx" removes a tree named "idx-2", which openBtree would not open under "idx" |
| BTreeProps.RemoveSlotMovesLast | assign4_b+-tree/btree_mgr.c:71-72 | removing a slot keeps the slots before it in place, moves the last slot into the hole and leaves the slots in between where they were |
| BTreeProps.NumNodesByDistance | assign4_b+-tree/btree_mgr.c:79-83 | getNumNodes as written: the slot at the handle's distance from slot 0's handle |
| BTreeProps.NumNodesByDistanceMissesMovedTree | assign4_b+-tree/btree_mgr.c:79-90 | after a deletion moves a tree, the distance lookup misses its counters while the lookup by handle finds them |
| BTreeMgr.IndexManager.constructor | assign4_b+-tree/btree_mgr.c:16-33 | an index manager with no nodes, no handles and no trees |
| BTreeMgr.IndexManager.CreateBtree | assign4_b+-tree/btree_mgr.c:41-50 | appends an empty root leaf, a handle for it and a registry slot with zero counters |
| BTreeMgr.IndexManager.OpenBtree | assign4_b+-tree/btree_mgr.c:53-60 | the first tree whose id equals the given id |
| BTreeMgr.IndexManager.DeleteBtree | assign4_b+-tree/btree_mgr.c:68-76 | the registry after deleteBtree; found iff some slot's id has the given prefix |
| BTreeMgr.IndexManager.FindSlot | assign4_b+-tree/btree_mgr.c:122-127 | the registry slot of the tree |
| BTreeMgr.IndexManager.UpdateNodeCount | assign4_b+-tree/btree_mgr.c:121-128 | the tree's node counter rises by one and nothing else changes |
| BTreeMgr.IndexManager.UpdateEntryCount | assign4_b+-tree/btree_mgr.c:131-138 | the tree's entry counter rises by one and nothing else changes |
| BTreeMgr.IndexManager.GetNumNodes | assign4_b+-tree/btree_mgr.c:79-83 | the node counter of the tree's own slot |
| BTreeMgr.IndexManager.GetNumEntries | assign4_b+-tree/btree_mgr.c:86-90 | the entry counter of the tree's own slot |
| BTreeMgr.IndexManager.GetKeyType | assign4_b+-tree/btree_mgr.c:93-96 | the key type of the handle |
| BTreeMgr.IndexManager.FindKey | assign4_b+-tree/btree_mgr.c:99-118 | the loops return the lookup result: the RID or RC_IM_KEY_NOT_FOUND |
| BTreeMgr.IndexManager.InsertIntoLeafWithOneValue | assign4_b+-tree/btree_mgr.c:141-153 | the leaf becomes the two-key leaf and the entry counter rises |
| BTreeMgr.IndexManager.SplitLeaf | assign4_b+-tree/btree_mgr.c:156-192 | the arena and counters become those of the leaf split |
| BTreeMgr.IndexManager.AddNodeToTree | assign4_b+-tree/btree_mgr.c:195-250 | the arena and counters become those of insertion below the node, and the stub is returned |
| BTreeMgr.IndexManager.AddBelowOneKey | assign4_b+-tree/btree_mgr.c:204-221 | the same for a one-key internal node |
| BTreeMgr.IndexManager.AddBelowTwoKeys | assign4_b+-tree/btree_mgr.c:222-249 | the same for a two-key internal node |
| BTreeMgr.IndexManager.SplitOnStub | assign4_b+-tree/btree_mgr.c:227-248 | the arena and counters become those of splitting on a stub |
| BTreeMgr.IndexManager.AbsorbStub | assign4_b+-tree/btree_mgr.c:206-219 | the arena becomes that of absorbing the stub |
| BTreeMgr.IndexManager.SplitInternal | assign4_b+-tree/btree_mgr.c:228-248 | the arena becomes that of the internal split and the node counter rises |
| BTreeMgr.IndexManager.InsertKey | assign4_b+-tree/btree_mgr.c:253-269 | answers RC_OK; arena, root and counters become those of insertKey |
| BTreeMgr.IndexManager.CountNodeAndEntry | assign4_b+-tree/btree_mgr.c:258-259 | the first insert into an empty root counts one node and one entry and changes nothing else |
| BTreeMgr.IndexManager.CountNewRoot | assign4_b+-tree/btree_mgr.c:264-266 | a new root counts one more node on top of the counts the insertion below it made |
| BTreeMgr.IndexManager.InsertAt | assign4_b+-tree/btree_mgr.c:254-267 | the same below a given root |
| BTreeMgr.IndexManager.InsertBelowRoot | assign4_b+-tree/btree_mgr.c:263-267 | a non-empty root: insertion below it, and a returned stub becomes the root |
| BTreeMgr.IndexManager.FillEmptyRoot | assign4_b+-tree/btree_mgr.c:255-261 | an empty root takes the key in slot 0 and both counters rise |
| BTreeMgr.IndexManager.DeleteKeyHelper | assign4_b+-tree/btree_mgr.c:279-285 | the outcome and arena of deleteKey below the node |
| BTreeMgr.IndexManager.DeleteKeyFromLeaf | assign4_b+-tree/btree_mgr.c:288-296 | the outcome and arena of deleting from the leaf |
| BTreeMgr.IndexManager.DeleteKey | assign4_b+-tree/btree_mgr.c:272-276 | the outcome and arena of deleteKey from the tree's root |
| BTreeMgr.IndexManager.FindLeftmostLeaf | assign4_b+-tree/btree_mgr.c:310-314 | the leftmost leaf below the node |
| BTreeMgr.InsertKeyBelowRoot | assign4_b+-tree/btree_mgr.c:263-267 | insertion below a non-empty root, counters included, agrees with insertKey |
| BTreeMgr.TreeScan.constructor | assign4_b+-tree/btree_mgr.c:317-324 | the cursor of a scan opened on the tree |
| BTreeMgr.TreeScan.NextEntry | assign4_b+-tree/btree_mgr.c:327-369 | cursor, code and result are one step of the scan |
| BTreeScenarios.ScanAfterInsertingFiveThreeEightOne | assign4_b+-tree/btree_mgr.c:253-353 | inserting 5, 3, 8 and 1 into a new tree and scanning it yields the RIDs of 1, 3, 5 and 8 in that order |
| BTreeScenarios.ScanAfterFiveThreeEightOneIsKeyOrder | assign4_b+-tree/btree_mgr.c:317-353 | the scan of that tree yields the RIDs in key order |
| BTreeScenarios.FindAfterFiveThreeEightOne | assign4_b+-tree/btree_mgr.c:99-118 | in the tree those four inserts build (BTreeScenarios.InsertOne), each of 1, 3, 5 and 8 is found with its own RID |
| BTreeScenarios.DuplicateKeyFindsFirstRid | assign4_b+-tree/btree_mgr.c:141-153 | inserting 5 twice keeps both entries, and findKey returns the RID of the first |
| BTreeScenarios.InternalSplitLosesKey | assign4_b+-tree/btree_mgr.c:222-248 | after inserting 10, 20, 30, 25 and 27, 27 is found; inserting 26 splits the root, after which 27 is not found while a scan still yields every RID including 27's |
| BTreeScenarios.InsertedKeyLostByInternalSplit | assign4_b+-tree/btree_mgr.c:222-248 | after 10, 20, 30, 25 and 27 the root holds two keys over leaves; inserting 28 splits the middle leaf and then the root, and findKey(28) is KEY_NOT_FOUND right after the insert |
| BTreeScenarios.InsertTwentyEight | assign4_b+-tree/btree_mgr.c:156-248 | the arena, levels, root and counters that inserting 28 leaves: leaf 25, 27 split off a leaf for 28, and the root split into three one-key nodes whose halves both point at the old leaf |
| BTreeScenarios.FindTwentyEightAfterSplit | assign4_b+-tree/btree_mgr.c:99-118 | findKey(28) on that tree descends to the leaf holding 25 and 27 and does not find 28 |
| RecordSpec.CreatePageDirectoryNode | assign4_b+-tree/record_mgr.c:597-606 | an entry for the page with no records and room for more |
| RecordSpec.NewTable | assign4_b+-tree/record_mgr.c:72-90 | a well-formed table with no RID handed out |
| RecordSpec.FirstWithRoom | assign4_b+-tree/record_mgr.c:213-219 | the first entry with fewer than maxSlotsPerPage records, every earlier one full; none iff all are full |
| RecordSpec.TotalUpdate | assign4_b+-tree/record_mgr.c:273-278 | updating one entry changes the tuple total by the count difference |
| RecordSpec.TotalAppend | assign4_b+-tree/record_mgr.c:243-247 | appending an entry adds its count to the total |
| RecordSpec.AppendEntry | assign4_b+-tree/record_mgr.c:221-247 | an entry for a later page keeps the directory ordered and hands out nothing |
| RecordSpec.PlaceAssignsFreshRid | assign4_b+-tree/record_mgr.c:249-278 | taking an entry's first free slot hands out a RID not handed out before, adds exactly it, and keeps the directory well formed |
| RecordSpec.InsertRecordAssignsFreshRid | assign4_b+-tree/record_mgr.c:204-279 | insertRecord hands out a RID no earlier insert did, records exactly it, and keeps the table consistent |
| RecordSpec.InsertIntoEntryWithRoom | assign4_b+-tree/record_mgr.c:213-219 | the case where some entry has room |
| RecordSpec.InsertIntoNewEntry | assign4_b+-tree/record_mgr.c:221-247 | the case where every entry is full |
| RecordSpec.PlaceKeepsTableOk | assign4_b+-tree/record_mgr.c:249-278 | placing a record keeps the table well formed and hands out a fresh RID |
| RecordSpec.Place | assign4_b+-tree/record_mgr.c:249-278 | the RID is the chosen entry's page and first free slot; that entry counts one more record and its first free slot moves on; the other entries and the directory size are unchanged, and the tuple total rises by one |
| RecordSpec.InsertRecordIsFirstFit | assign4_b+-tree/record_mgr.c:213-247 | the first entry with room takes the record and all others are unchanged; if all are full, a new entry for the next page holds just this record in slot 0 |
| RecordSpec.InsertRecord | assign4_b+-tree/record_mgr.c:204-279 | one more tuple; the directory grows by at most one entry, by exactly one when the old entries are all kept as they were, and a directory page is written only when an entry is appended, on the new RID's page |
| RecordSpec.DirectoryPageIsDataPage | assign4_b+-tree/record_mgr.c:221-240 | the directory page written for a new entry is the data page the record goes to, written only when all entries were full and the count was a multiple of dirsPerPage |
| RecordSpec.InsertsHandOutDistinctRids | assign4_b+-tree/record_mgr.c:204-279 | n inserts hand out n distinct new RIDs and count n more tuples |
| RecordSpec.InsertN | assign4_b+-tree/record_mgr.c:204-279 | any number of inserts keeps the table well formed |
| RecordSpec.StartScan | assign4_b+-tree/record_mgr.c:355-366 | a scan starts at slot 0 of the first entry's page |
| RecordSpec.NextPage | assign4_b+-tree/record_mgr.c:379-385 | the following page, or the one after when its number is a multiple of dirsPerPage + 1 |
| RecordSpec.Next | assign4_b+-tree/record_mgr.c:368-410 | RC_OK with a RID, or RC_RM_NO_MORE_TUPLES without one; a RID returned satisfies the condition, lies on a page up to the last and in a slot below the per-page limit |
| RecordSpec.NextMeaning | assign4_b+-tree/record_mgr.c:368-410 | next returns an accepted RID no earlier than the cursor and up to the last page, with every skipped slot on the cursor's page rejected and the cursor just past it; or NO_MORE_TUPLES past the last page |
| RecordSpec.NextTakesCurrentSlot | assign4_b+-tree/record_mgr.c:387-399 | with no condition, next returns the slot under the cursor and moves on one slot |
| RecordSpec.NextWrapsToNextPage | assign4_b+-tree/record_mgr.c:378-386 | past a page's last slot, next goes on at slot 0 of the following page |
| RecordSpec.NextSkipsDirectoryPage | assign4_b+-tree/record_mgr.c:381-384 | a following page numbered a multiple of dirsPerPage + 1 is skipped |
| RecordSpec.ExhaustedScanStaysExhausted | assign4_b+-tree/record_mgr.c:407-409 | an exhausted scan keeps answering NO_MORE_TUPLES and steps the slot back each time |
| RecordSpec.FirstInsertIsFirstScanned | assign4_b+-tree/record_mgr.c:355-410 | the first record inserted into a new table is the first a scan returns |
| RecordSpec.SizeOfFirstLocal | assign4_b+-tree/record_mgr.c:422-446 | the size of the first n attributes depends on them alone |
| RecordSpec.AddAttributeAddsItsSize | assign4_b+-tree/record_mgr.c:422-446 | adding an attribute adds its size and nothing else |
| RecordSpec.SizeOfFirstBounds | assign4_b+-tree/record_mgr.c:422-446 | the record size is non-negative and at most four bytes per attribute plus the string lengths |
| RecordSpec.AttrSize | assign4_b+-tree/record_mgr.c:428-443 | a string takes its declared length; any other type takes 0 to 4 bytes, and 0 only for an unknown type |
| RecordSpec.SizeOfFirst | assign4_b+-tree/record_mgr.c:422-446 | without strings, the first n attributes take between 0 and 4n bytes |
| RecordSpec.RecordSize | assign4_b+-tree/record_mgr.c:422-446 | without strings, a record takes between 0 and 4 bytes per attribute |
| RecordSpec.KeyIndex | assign4_b+-tree/record_mgr.c:761-766 | the first attribute named like the key, or -1 iff none is |
| RecordSpec.ParseKeyInfo | assign4_b+-tree/record_mgr.c:755-774 | every key attribute is that index, the key size is 1, and the rest of the schema is unchanged |
| RecordMgr.GetRecordSize | assign4_b+-tree/record_mgr.c:422-446 | the loop returns the record size of the schema |
| RecordMgr.ParseKeyInfo | assign4_b+-tree/record_mgr.c:755-774 | the loops give the schema of parseKeyInfo |
| RecordMgr.RecordManager.constructor | assign4_b+-tree/record_mgr.c:72-90 | a new table and the record size createTable computes |
| RecordMgr.RecordManager.GetNumTuples | assign4_b+-tree/record_mgr.c:197-200 | the number of records the directory counts |
| RecordMgr.RecordManager.FindEntryWithRoom | assign4_b+-tree/record_mgr.c:213-219 | the walk stops at the first entry with room, or at the end iff there is none |
| RecordMgr.RecordManager.InsertRecord | assign4_b+-tree/record_mgr.c:204-279 | answers RC_OK; table, RID and directory page are those of insertRecord, and the offset is slot times recSize |
| RecordMgr.NextAtPageEnd | assign4_b+-tree/record_mgr.c:378-385 | one wrap step of next leaves its result unchanged |
| RecordMgr.NextPastRejected | assign4_b+-tree/record_mgr.c:387-405 | one rejected slot leaves next's result unchanged |
| RecordMgr.RecordScan.constructor | assign4_b+-tree/record_mgr.c:355-366 | the start of a scan |
| RecordMgr.RecordScan.Next | assign4_b+-tree/record_mgr.c:368-410 | cursor, code and RID are those of one next() |

## Left out

- Storage manager: only the four calls the buffer pool makes are modelled. Opening and closing page files is not modelled, nor are their errors. `openPageFile` in FIFO and LRU is assumed to succeed, and so are the open and close calls in `forcePage` and `forceFlushPool`.
- The page file: the file opened by name is modelled as a parameter of the pool.
- `shutdownBufferPool`: only frees memory, so it is not modelled.
- RS_CLOCK: `pinPage` does nothing for it, and the model does the same.
- Page handles: a handle is modelled as a copy of the frame's page number and bytes. The aliasing of `page->data` with the frame buffer is not modelled, so a client's writes through the handle do not reach the frame.
- `initBufferPool` with zero frames: writes before the frame array, so the model requires at least one frame.
- Integer widths are not modelled: page numbers and counters are unbounded, and the registry index `currentInstanceIndex` is a `uint8_t` with at most `MAX_NODES` = 100 trees.
- Uninitialised memory: `malloc` is read as zero. This covers fresh nodes (including `isLeaf` of new roots) and page buffers.
- `closeBtree`, `closeTreeScan`, `initIndexManager` and `shutdownIndexManager` return RC_OK and do nothing; only the empty registry of the constructor is modelled.
- `printTree`: output only, so it is not modelled.
- Keys: only integer keys (`key->v.intV`) are modelled, as in the code.
- Scan position: the global `scanPosition` of nextEntry is folded into the scan's cursor, so two interleaved scans are not modelled.
- `openBtree` and `deleteBtree` fall off the end without a return value when no id matches. The model returns no tree, or no removal.
- BTreeMgr.IndexManager.CreateBtree: requires fewer than `MAX_NODES` trees, because the C code would write past `btreeInstances`.
- BTreeMgr.IndexManager.CreateBtree: the handle stores the caller's `idxId` pointer (`btree_mgr.c:47`), so a caller that later changes or frees that string changes the id openBtree and deleteBtree compare against; the model copies the string.
- BTreeSpec.AddNodeToTree: `insertIntoLeafWithOneValue` (`btree_mgr.c:141-153`) ends without a return statement, yet `addNodeToTree` returns its value (`btree_mgr.c:198`). That value is undefined in C; the model reads it as NULL (no stub).
- BTreeMgr.IndexManager.UpdateNodeCount: `updateNodeCount` and `updateEntryCount` (`btree_mgr.c:121-138`) fall off the end without a return value when the tree is not registered; the model changes nothing then, and returns no code in either case. UpdateEntryCount does the same.
- BTreeProps.NumNodesByDistance: handles are numbered in allocation order, as if they lay next to each other. In C each handle is its own `malloc` (`btree_mgr.c:42-43`), so `tree - btreeInstances[0].bth` is undefined, and it is wrong for every tree but slot 0's even before any deletion. The index the model computes (including -1) is the model's number, not a C address.
- BTreeProps.InsertThenFindInLeafRoot: the insert-then-find round trip is proved only where the source keeps it, and under two restrictions. (1) Tombstones: every round-trip lemma requires the slot the key lands in to carry no tombstone (the root-leaf and one-key-root lemmas require leaves with none at all), because tombstones stay with their slots and can hide the key just inserted (BTreeProps.TombstoneStaysWithSlot). (2) Shape: it is proved for a root leaf (this lemma), for a one-key root over two sorted leaves whether the leaf has room or splits (InsertThenFindUnderOneKeyRoot), and for a tree of any depth whose leaf on the key's path has room (InsertThenFindInRoomyLeaf), which covers a two-key root over a leaf with room. It fails as soon as a full leaf splits under a two-key internal node, already in a one-level tree: inserting 28 after 10, 20, 30, 25 and 27 loses 28 (BTreeScenarios.InsertedKeyLostByInternalSplit), and inserting 26 instead loses 27 (BTreeScenarios.InternalSplitLosesKey).
- BTreeMgr.IndexManager.GetNumNodes: returns the counters of the tree's own slot (the corrected lookup); the pointer-distance lookup as written is `BTreeProps.NumNodesByDistance`. GetNumEntries does the same.
- Record manager:
  - Serialisation and I/O are not modelled: `serializeRecord`, `serializePageDirectory`, the schema page, and the pins and writes `insertRecord` makes through the buffer pool. The model returns the record's offset and the page a new directory entry goes to.
  - `maxPageDirsPerPage` depends on the length of the serialised directory, so it is the parameter `dirsPerPage`.
  - The scan condition is the predicate `accept` on the slot's RID. `getRecord` and `evalExpr` are not modelled; a NULL condition is `accept` returning true.
  - `openTable`, `closeTable`, `deleteTable`, `deleteRecord`, `updateRecord`, `getRecord`, the schema and record constructors, and `getAttr`/`setAttr` are not modelled. The constructor of `RecordManager` starts from the table `createTable` writes.
  - `next()` requires a non-empty directory, which every table has from `createTable` on.
- RecordMgr.RecordManager.InsertRecord: does not model the bytes the record occupies in the page.
- RecordMgr.RecordManager.GetNumTuples: in C, `tuples`, `recSize`, `maxSlotsPerPage` and `maxPageDirsPerPage` are process-wide globals (`record_mgr.c:40-43`), not per table. `createTable` resets them (`record_mgr.c:83-86`) and `openTable` (`record_mgr.c:96-140`) does not restore `tuples`, so with two tables, or a table reopened, getNumTuples counts the inserts of every table since the last createTable. The model keeps one count per table object.
- RecordSpec.SizeOfFirstBounds: assumes `sizeof(int)` = `sizeof(float)` = 4 and `sizeof(bool)` = 1.

## Findings

| source | as written | input that shows it | evidently intended | confidence | as-written member | corrected member |
|---|---|---|---|---|---|---|
| assign4_b+-tree/btree_mgr.c:79-90 | getNumNodes and getNumEntries index the registry by the distance between the given handle and slot 0's handle | create trees 0, 1, 2, delete tree 0 (tree 2 moves into slot 0); with handles numbered in allocation order, getNumNodes of tree 1 computes slot -1; in C the distance between separately allocated handles is undefined, and wrong for every tree but slot 0's | the counters of the slot holding the tree, as updateNodeCount finds it | high, not executed | BTreeProps.NumNodesByDistanceMissesMovedTree | BTreeMgr.IndexManager.GetNumNodes |
| assign4_b+-tree/btree_mgr.c:279-307 | deleteKey descends by getChildIndex, which sends a key at or above the separator of a one-key node to child 2, which is NULL | insert 1, 2, 3 into a new tree, then delete 3 | descend the way findKey does, and tombstone the key findKey would find | high, not executed | BTreeProps.DeleteOfThirdKeyReachesNullChild | BTreeProps.DeleteOnFindPathThenFind |
