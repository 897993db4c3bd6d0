# SimpleDB storage core, in Dafny

This project models the storage core of SimpleDB (the MySimpleDB Java repository) and proves its
behaviour. The core is the buffer pool together with the components it drives directly:

- the LRU page cache;
- the page lock manager and its lock entries;
- heap files and their page iterator.

Above the core sit the two group-by aggregators and the integer histogram the optimizer uses.

Each Java class whose fields change in place becomes a Dafny `class` whose methods carry `modifies`
clauses: `LRUCache`, `LockManager`, `PageLock`, `HeapFile`, `BufferPool`, `HeapFileIterator`,
`ResInfo`, `IntegerAggregator`, `StringAggregator` and `IntHistogram`. Each method is proved
against a specification function on values. The properties the Java code promises are then
proved about those functions as lemmas:

- no-steal eviction;
- commit and abort;
- lock compatibility;
- first-fit insertion;
- per-group totals;
- histogram bounds.

Modules, one per file:

- `Wrappers` holds `Option`, `Result` and `Outcome`.
- `Sets` holds a fact about finite sets that several modules share.
- `JavaInts` models Java `int` wrap-around and truncating division.
- `DbTypes` holds ids, fields, tuples and the exceptions.
- `Pages` is the slot view of a heap page.
- `LruCache` is `LRUCache`.
- `PageLocks` is `PageLock`.
- `LockManagers` is `LockManager`: the table as a value plus the class.
- `Eviction` is the no-steal eviction rule, stated on a value view of the cache.
- `Storage` holds the disk, the log, `HeapFile` and `BufferPool`. The two call each other, so they share a module.
- `HeapFileIterators` is `HeapFileIterator`.
- `Aggregation` holds what both aggregators share.
- `IntegerAggregators` and `StringAggregators` are the two aggregators.
- `Histograms` is `IntHistogram`.

Apart from two defects, the Java behaviour is kept as written, including its odd corners:

- A transaction that holds nothing on a page held Shared is granted Shared, and no entry is recorded.
- `flushPage` writes clean pages too.
- `flushPages` refreshes the before-image of every cached page.
- An exception during commit is swallowed, and the transaction's locks are then not released.
- A page the file cannot read makes the heap file iterator raise an uncaught `NullPointerException`; other exceptions of `getPage` than `TransactionAbortedException` and `DbException` escape it too. `open` fetches page 0 even of a table with no pages.
- Without grouping, the string aggregator declares a STRING output column for its integer count.

Three places where the code does not do what it evidently intends are listed under Findings. Each has a member modelling the code as written and a corrected member. The page offset of heap files and the histogram's greater-than count are the two defects: the operations that use them use the corrected form, as "## Left out" records for each.

## Model

| member | source | states |
|---|---|---|
| JavaInts.Wrap32 | src/java/simpledb/execution/IntegerAggregator.java:57-58 | a Java `int` sum or product that stays in range is unchanged by the wrap-around |
| JavaInts.Wrap32Add | src/java/simpledb/execution/IntegerAggregator.java:57-58 | wrapping after every addition equals wrapping once at the end, so a wrapped running count is the wrapped true count |
| JavaInts.JavaDivProperties | src/java/simpledb/execution/IntegerAggregator.java:67 | Java's truncating `/` agrees with Dafny's on a non-negative dividend and positive divisor, and is odd in the dividend |
| Pages.EmptyImage | src/java/simpledb/storage/HeapFile.java:132 | `createEmptyPageData` gives a page with every slot empty |
| Pages.FromDisk | src/java/simpledb/storage/HeapFile.java:92 | a page parsed from the file carries its id, the bytes read, is clean and has them as before-image |
| Pages.NumEmptySlots | src/java/simpledb/storage/HeapFile.java:123 | the empty-slot count is positive exactly when some slot is empty |
| Pages.FirstEmpty | src/java/simpledb/storage/HeapFile.java:124 | the slot an insert uses is empty and every lower slot is used |
| Pages.InsertRow | src/java/simpledb/storage/HeapFile.java:136 | inserting succeeds exactly when the page has an empty slot |
| Pages.Filled | src/java/simpledb/storage/HeapFile.java:123-124 | after an insert the row is on the page, one empty slot fewer remains, and id, dirty marker and before-image are kept |
| Pages.DeleteSlot | src/java/simpledb/storage/HeapFile.java:151-152 | deleting empties exactly the tuple's slot and keeps every other slot |
| Pages.InsertRowFirstFit | src/java/simpledb/storage/HeapFile.java:123-124 | insertion is first-fit: the lowest empty slot receives the row, nothing else changes, one empty slot fewer |
| Pages.DeleteSlotFreesOne | src/java/simpledb/storage/HeapFile.java:151-152 | deleting a used slot frees exactly one slot |
| LruCache.RemoveKey | src/java/simpledb/util/LRUCache.java:83-86 | unlinking an absent key leaves the list; unlinking a present key shortens it by one |
| LruCache.Filter | src/java/simpledb/util/LRUCache.java:69-74 | removing a set of keys keeps exactly the other keys |
| LruCache.NoDupCons | src/java/simpledb/util/LRUCache.java:76-81 | linking a key that is not on the list at the head keeps the list duplicate-free |
| LruCache.RemoveKeyShifts | src/java/simpledb/util/LRUCache.java:83-86 | unlinking keeps the keys before the node in place and moves the ones after it forward by one |
| LruCache.LastNotInFront | src/java/simpledb/util/LRUCache.java:93-97 | the node before `tail` holds a key that no other node holds |
| LruCache.ListedKeys | src/java/simpledb/util/LRUCache.java:25-27 | the map's keys and the list's keys are the same set |
| LruCache.ListedIn | src/java/simpledb/util/LRUCache.java:43 | a key is in the map exactly when it is on the list |
| LruCache.RemoveKeyListed | src/java/simpledb/util/LRUCache.java:69-74 | unlinking a node and removing its key from the map keeps map and list in step |
| LruCache.ConsListed | src/java/simpledb/util/LRUCache.java:56-60 | adding a new key to the map and at the head of the list keeps them in step |
| LruCache.NoDupCard | src/java/simpledb/util/LRUCache.java:38-40 | a duplicate-free list has as many nodes as distinct keys, so `getSize` counts the list |
| LruCache.FilterNoDup | src/java/simpledb/util/LRUCache.java:69-74 | removing keys keeps the list duplicate-free |
| LruCache.RemoveKeyFilter | src/java/simpledb/util/LRUCache.java:69-74 | removing keys one by one equals removing them all at once, in any order |
| LruCache.LRUCache.constructor | src/java/simpledb/util/LRUCache.java:29-36 | a new cache is empty and has the given capacity |
| LruCache.LRUCache.GetSize | src/java/simpledb/util/LRUCache.java:38-40 | the size is the number of list nodes |
| LruCache.LRUCache.Get | src/java/simpledb/util/LRUCache.java:42-49 | a present key returns its value and becomes most recently used; an absent key returns null and changes nothing; no entry changes |
| LruCache.LRUCache.Put | src/java/simpledb/util/LRUCache.java:51-61 | the key maps to the new value and becomes most recently used; no other entry is touched, so capacity is not enforced |
| LruCache.LRUCache.EvictOldest | src/java/simpledb/util/LRUCache.java:62-67 | below capacity: null, no change; otherwise the least recently used entry is removed and its value returned, the rest keep their order |
| LruCache.LRUCache.Remove | src/java/simpledb/util/LRUCache.java:69-74 | the key is gone, every other entry stays, the remaining order is kept; an absent key is a no-op |
| LruCache.LRUCache.GetValueIterator | src/java/simpledb/util/LRUCache.java:99-106 | a snapshot holding one value per cached key |
| LruCache.LRUCache.ReplaceValue | src/java/simpledb/storage/BufferPool.java:307 | a cached page object changed through another reference: the entry's value changes, its recency does not |
| LruCache.LRUCache.AddToHead | src/java/simpledb/util/LRUCache.java:76-81 | the node is linked right after `head`, the rest keep their order, and map and list are back in step |
| LruCache.LRUCache.RemoveNode | src/java/simpledb/util/LRUCache.java:83-86 | the node is unlinked, the others keep their order, and the map is left to the caller |
| LruCache.LRUCache.MoveToHead | src/java/simpledb/util/LRUCache.java:88-91 | the key moves to the front, and the others keep their relative order |
| LruCache.LRUCache.RemoveTail | src/java/simpledb/util/LRUCache.java:93-97 | the node before `tail` is unlinked and its key returned |
| PageLocks.PageLock.constructor | src/java/simpledb/transaction/PageLock.java:14-17 | the entry stores the given transaction and type |
| PageLocks.PageLock.SetTid | src/java/simpledb/transaction/PageLock.java:23-25 | only the transaction changes |
| PageLocks.PageLock.SetType | src/java/simpledb/transaction/PageLock.java:31-33 | only the type changes, and the transaction is kept |
| LockManagers.Acquire | src/java/simpledb/transaction/LockManager.java:26-73 | a refused request leaves the table unchanged |
| LockManagers.Release | src/java/simpledb/transaction/LockManager.java:93-98 | `releaseLock` answers false exactly when `tid` holds nothing there, and then changes nothing |
| LockManagers.ReleaseSpec | src/java/simpledb/transaction/LockManager.java:93-98 | after `releaseLock(pid, tid)` `tid` holds nothing on `pid`, and every other (page, transaction) entry is unchanged |
| LockManagers.AcquireFreshRow | src/java/simpledb/transaction/LockManager.java:29-35 | on a page with no row the request is granted and creates a row in which `tid` holds the requested mode |
| LockManagers.AcquireOthersUnchanged | src/java/simpledb/transaction/LockManager.java:26-73 | acquisition never changes another transaction's entries |
| LockManagers.NonHolderRequest | src/java/simpledb/transaction/LockManager.java:40-54 | for a non-holder on a held page: Exclusive is refused; Shared is granted unless the sole holder is Exclusive; the table never changes, so no entry is recorded |
| LockManagers.HolderRequest | src/java/simpledb/transaction/LockManager.java:59-72 | an Exclusive holder is granted any request, and a Shared holder a Shared request, with the table unchanged |
| LockManagers.UpgradeSoleHolder | src/java/simpledb/transaction/LockManager.java:59-69 | a Shared holder asking Exclusive is upgraded in place exactly when it is the page's only entry; otherwise refused, no change |
| LockManagers.AcquirePreservesWellFormed | src/java/simpledb/transaction/LockManager.java:26-73 | every row stays non-empty with exactly one entry |
| LockManagers.AcquirePreservesModes | src/java/simpledb/transaction/LockManager.java:26-73 | stored types stay `SHARE` or `EXCLUSIVE` when requests use those modes |
| LockManagers.ReleasePreservesWellFormed | src/java/simpledb/transaction/LockManager.java:93-98 | releasing keeps every row non-empty with one entry; an emptied row is removed |
| LockManagers.ExclusiveIsAlone | src/java/simpledb/transaction/LockManager.java:47-52 | in a well-formed table an Exclusive entry is the only entry on its page |
| LockManagers.ReleaseOnStep | src/java/simpledb/transaction/LockManager.java:100-104 | one more iteration of the release loop releases one more page |
| LockManagers.ReleaseAllSpec | src/java/simpledb/transaction/LockManager.java:100-104 | after `releaseLockByTxn(tid)`, `isHold` is -1 for `tid` everywhere and every other transaction's entries are unchanged |
| LockManagers.LockManager.constructor | src/java/simpledb/transaction/LockManager.java:14-16 | the table starts empty |
| LockManagers.LockManager.IsHold | src/java/simpledb/transaction/LockManager.java:81-86 | the type `tid` holds on `pid`, or -1 when there is no row or no entry |
| LockManagers.LockManager.IsHoldIn | src/java/simpledb/transaction/LockManager.java:88-91 | the type stored for `tid` in a row, or -1 when there is none |
| LockManagers.LockManager.AcquireLock | src/java/simpledb/transaction/LockManager.java:26-73 | grant and new table are those of `Acquire`, and rows keep one entry |
| LockManagers.LockManager.TryLock | src/java/simpledb/transaction/LockManager.java:18-24 | the spin behaves as one `acquireLock` attempt |
| LockManagers.LockManager.ReleaseLock | src/java/simpledb/transaction/LockManager.java:93-98 | result and new table are those of `Release` |
| LockManagers.LockManager.ReleaseLockByTxn | src/java/simpledb/transaction/LockManager.java:100-104 | the loop over a snapshot of the pages leaves the table `ReleaseAll` describes |
| Eviction.Rotated | src/java/simpledb/storage/BufferPool.java:286-290 | popping the tail and putting it back at the front keeps the list's length |
| Eviction.RotatedSlices | src/java/simpledb/storage/BufferPool.java:286-290 | after `i` such rounds, the last `i` keys have moved, in order, to the front |
| Eviction.DirtyRun | src/java/simpledb/storage/BufferPool.java:286-291 | the number of dirty pages met is between the pages already counted and `numPages` |
| Eviction.DirtyRunFrom | src/java/simpledb/storage/BufferPool.java:286-291 | every page the run passes is dirty, and a run stopping early stops at a clean page |
| Eviction.DirtyRunSpec | src/java/simpledb/storage/BufferPool.java:286-291 | the same, for the whole run from the least recently used page |
| Eviction.RotatedListed | src/java/simpledb/storage/BufferPool.java:289-290 | putting popped dirty pages back keeps the cache's map and list in step |
| Eviction.EvictKeepsValid | src/java/simpledb/storage/BufferPool.java:280-295 | eviction keeps the cache's invariant |
| Eviction.EvictKeepsDirty | src/java/simpledb/storage/BufferPool.java:280-295 | eviction drops at most one page, never a dirty one, and changes no remaining page |
| Eviction.EvictDropsOldestClean | src/java/simpledb/storage/BufferPool.java:286-291 | a successful eviction at or above capacity drops exactly one page: the least recently used clean page among the last `numPages`, after which all pages are dirty |
| Eviction.EvictFailsAllDirty | src/java/simpledb/storage/BufferPool.java:286-294 | when it raises, the last `numPages` pages are dirty and the cached pages are unchanged; with exactly `numPages` cached the order is unchanged too |
| Eviction.EvictBelowCapacity | src/java/simpledb/storage/BufferPool.java:286 | below capacity eviction succeeds and changes nothing |
| Eviction.EvictCleanTailSucceeds | src/java/simpledb/storage/BufferPool.java:286-294 | a clean page among the last `numPages` means eviction does not raise |
| Eviction.PutView | src/java/simpledb/storage/BufferPool.java:101 | putting a page stores it under its key |
| Eviction.PutViewValid | src/java/simpledb/storage/BufferPool.java:101 | a put keeps the invariant and grows the cache by one exactly when the key is new |
| Eviction.StoreSpec | src/java/simpledb/storage/BufferPool.java:192-196 | storing pages keeps the cache's invariant |
| Eviction.PutEvictKeys | src/java/simpledb/storage/BufferPool.java:101-102 | a new page put and then evicting: at most one page leaves |
| Eviction.PutEvictKeepsDirty | src/java/simpledb/storage/BufferPool.java:101-102 | a new page put and then evicting keeps every dirty page with its value |
| Eviction.StoreStep | src/java/simpledb/storage/BufferPool.java:192-196 | each reported page is marked dirty by `tid`, put, then evicted from |
| Eviction.StoreFailSticks | src/java/simpledb/storage/BufferPool.java:192-196 | an eviction that raises ends the loop |
| Eviction.StoreOneKeeps | src/java/simpledb/storage/BufferPool.java:191-196 | the one page the file reports ends up cached and dirty by `tid`, even when the eviction raises |
| Eviction.EvictPopped | src/java/simpledb/storage/BufferPool.java:286 | the page a round pops is the next one from the tail |
| Eviction.EvictDirtyStep | src/java/simpledb/storage/BufferPool.java:289-290 | a dirty pop lengthens the dirty run |
| Eviction.EvictDirtyRound | src/java/simpledb/storage/BufferPool.java:289-290 | a dirty pop put back rotates the list one step and keeps the pages |
| Eviction.EvictCleanStep | src/java/simpledb/storage/BufferPool.java:291 | a clean pop is the page eviction drops |
| Eviction.EvictAllDirty | src/java/simpledb/storage/BufferPool.java:286-294 | `numPages` dirty pops raise `DbException` with the list rotated |
| Storage.OffsetAsWritten | src/java/simpledb/storage/HeapFile.java:90 | the `int` product equals the true offset for page numbers below 2^19 |
| Storage.OffsetAsWrittenOverflows | src/java/simpledb/storage/HeapFile.java:87-105 | page 2^19 gets a negative offset and page 2^20 the offset of page 0 |
| Storage.OffsetsDisjoint | src/java/simpledb/storage/HeapFile.java:104-105 | with the corrected offset, distinct pages occupy disjoint byte ranges at non-negative offsets |
| Storage.AppendAddsOnePage | src/java/simpledb/storage/HeapFile.java:131-134 | writing page `numPages()` past the end grows the file by exactly one page |
| Storage.Disk.constructor | src/java/simpledb/storage/HeapFile.java:37-46 | the disk holds the given files |
| Storage.Disk.Write | src/java/simpledb/storage/HeapFile.java:104-105 | seek-and-write changes the files as `WriteAt` says |
| Storage.WriteAt | src/java/simpledb/storage/HeapFile.java:104-105 | the image lands at the offset, the file grows to cover it, and every other file is unchanged |
| Storage.LogFile.LogWrite | src/java/simpledb/storage/BufferPool.java:301 | appends an update record with before- and after-image |
| Storage.LogFile.Force | src/java/simpledb/storage/BufferPool.java:302 | appends a force record |
| Storage.FlushRecords | src/java/simpledb/storage/BufferPool.java:299-303 | `flushPage` logs something exactly when the page is dirty |
| Storage.InPlace | src/java/simpledb/storage/HeapFile.java:122-124 | a page changed through the reference `getPage` returned replaces its cache entry, keeping its recency and every other entry |
| Storage.InPlaceValid | src/java/simpledb/storage/HeapFile.java:122-124 | such a change keeps the cache's invariant |
| Storage.CommitLogBlind | src/java/simpledb/storage/BufferPool.java:271-272 | because `setBeforeImage` runs first, every update record `flushPages` writes has equal before- and after-image |
| Storage.FlushLogClean | src/java/simpledb/storage/BufferPool.java:299-303 | `flushAllPages` over clean pages logs nothing |
| Storage.DiscardStep | src/java/simpledb/storage/BufferPool.java:165-168 | one iteration of `discardPageByTxn` drops the visited page exactly when `tid` dirtied it |
| Storage.HeapFile.constructor | src/java/simpledb/storage/HeapFile.java:37-46 | the file is bound to its table and disk |
| Storage.HeapFile.NumPages | src/java/simpledb/storage/HeapFile.java:111-114 | the length divided by the page size: `n` whole pages and less than `n + 1` |
| Storage.HeapFile.ReadPage | src/java/simpledb/storage/HeapFile.java:85-98 | a clean page with the requested id, or null exactly when the read raises |
| Storage.HeapFile.WritePage | src/java/simpledb/storage/HeapFile.java:101-106 | fails exactly when the medium or the offset refuses; otherwise exactly that page's bytes change, the file covers it and a read returns it |
| Storage.HeapFile.ScanSpecOk | src/java/simpledb/storage/HeapFile.java:121-129 | the first-fit scan returns a page of this file with an empty slot, at a position it scanned |
| Storage.HeapFile.ScanForRoom | src/java/simpledb/storage/HeapFile.java:121-129 | the loop over pages 0 .. numPages-1 computes `ScanSpec` |
| Storage.HeapFile.ScanFirstFit | src/java/simpledb/storage/HeapFile.java:121-129 | the scan is first fit: the page it returns is what fetching that page gave, and every page fetched before it was full or null; with no page found, all were |
| Storage.HeapFile.InsertTuple | src/java/simpledb/storage/HeapFile.java:117-141 | returns exactly one page of this file holding the tuple; when the scan finds room, the tuple goes into that page (the first with room, by `ScanFirstFit`) and the file is untouched; otherwise, as `Inserted` says, an unwritable file raises `IOException` after the scan, and a writable one grows by exactly one empty page at `numPages()`, no other page changing, which is then fetched through the pool and filled |
| Storage.HeapFile.Append | src/java/simpledb/storage/HeapFile.java:131-139 | an empty page numbered `numPages()` is written, so `numPages` grows by one and no other page changes; then it is fetched for write and receives the tuple |
| Storage.HeapFile.DeleteTuple | src/java/simpledb/storage/HeapFile.java:144-158 | result and pool state are `DeleteSpec`: only the page of the record id is fetched; when the slot is used it is emptied in place and that page returned alone; otherwise nothing is returned; a fetch that raises or a missing record id raises |
| Storage.ModeOf | src/java/simpledb/storage/BufferPool.java:90 | Shared exactly for `READ_ONLY`, Exclusive otherwise |
| Storage.EvictResident | src/java/simpledb/storage/BufferPool.java:280-295 | eviction keeps every page stored under its own id |
| Storage.BufferPool.constructor | src/java/simpledb/storage/BufferPool.java:50-55 | a new pool has an empty cache and an empty lock table |
| Storage.BufferPool.LoadSpec | src/java/simpledb/storage/BufferPool.java:97-105 | a loaded page has the requested id, and the cache stays valid |
| Storage.BufferPool.GetSpecOk | src/java/simpledb/storage/BufferPool.java:87-95 | a page returned has the requested id, and the pool state stays consistent |
| Storage.BufferPool.GetRefused | src/java/simpledb/storage/BufferPool.java:90-91 | a refused lock raises `TransactionAbortedException` and changes neither cache nor locks |
| Storage.BufferPool.GetLocks | src/java/simpledb/storage/BufferPool.java:90 | the lock table changes exactly as the request says |
| Storage.BufferPool.GetHit | src/java/simpledb/storage/BufferPool.java:92-93 | a hit returns the cached page, makes it most recently used, and neither reads nor evicts |
| Storage.BufferPool.LoadMiss | src/java/simpledb/storage/BufferPool.java:97-105 | a miss reads the page from its file, puts it at the front and evicts; it returns it unless the eviction raises |
| Storage.BufferPool.GetPage | src/java/simpledb/storage/BufferPool.java:87-95 | result and new state are those of `GetSpec` |
| Storage.BufferPool.LoadPage | src/java/simpledb/storage/BufferPool.java:97-105 | result and new cache are those of `LoadSpec` |
| Storage.BufferPool.EvictPage | src/java/simpledb/storage/BufferPool.java:280-295 | the counting loop computes `EvictSpec` |
| Storage.BufferPool.EvictRound | src/java/simpledb/storage/BufferPool.java:286-291 | one round: nothing below capacity; otherwise pop the tail, and put a dirty one back at the front |
| Storage.BufferPool.UpdateInPlace | src/java/simpledb/storage/HeapFile.java:122-124 | the cache changes as `InPlace` says |
| Storage.BufferPool.StorePages | src/java/simpledb/storage/BufferPool.java:192-196 | the loop computes `StoreSpec` |
| Storage.BufferPool.InsertTuple | src/java/simpledb/storage/BufferPool.java:186-197 | an unknown table raises and changes nothing; otherwise the file's outcome and the pool state it leaves are those of `HeapFile.Inserted` (so the disk changes only by the appended page); an error of the file is raised with that state; a reported page, which holds the tuple, is put dirty and followed by `evictPage` as `StoreSpec` says (which pages stay, `DbException` when all are dirty), the locks being those the file left |
| Storage.BufferPool.DeleteTuple | src/java/simpledb/storage/BufferPool.java:212-225 | no record id or unknown table: raises, no change; otherwise the file's outcome and the state it leaves are `HeapFile.DeleteSpec`; an error is raised with that state; no page reported leaves that state as it is; a reported page, the tuple's with its slot empty, is put dirty and followed by `evictPage` as `StoreSpec` says, the locks being those the file left; the disk is untouched |
| Storage.BufferPool.ImageAfterWrite | src/java/simpledb/storage/HeapFile.java:104-105 | writing one page changes that page's image and no other |
| Storage.BufferPool.FlushSpec | src/java/simpledb/storage/BufferPool.java:297-308 | flushing keeps the cached keys and their order |
| Storage.BufferPool.VisitSpec | src/java/simpledb/storage/BufferPool.java:269-273 | visiting a page keeps the cached keys and their order |
| Storage.BufferPool.SweepStep | src/java/simpledb/storage/BufferPool.java:268-273 | one more key visited is one more visit |
| Storage.BufferPool.VisitEntries | src/java/simpledb/storage/BufferPool.java:270-272 | a visit changes only the visited page, to its swept form |
| Storage.BufferPool.VisitFiles | src/java/simpledb/storage/BufferPool.java:272 | a visit writes the page exactly when the sweep selects it |
| Storage.BufferPool.SweepFailSticks | src/java/simpledb/storage/BufferPool.java:268-273 | an exception ends the sweep |
| Storage.BufferPool.SweepOutcome | src/java/simpledb/storage/BufferPool.java:265-274 | the cached keys and order are kept; only `IOException` is raised, exactly when some page to flush cannot be written |
| Storage.BufferPool.SweepEntries | src/java/simpledb/storage/BufferPool.java:265-274 | after a successful sweep, visited pages are swept and all others are unchanged |
| Storage.BufferPool.SweepLogged | src/java/simpledb/storage/BufferPool.java:265-274 | a successful sweep writes exactly `SweepLog` |
| Storage.BufferPool.SweepFiles | src/java/simpledb/storage/BufferPool.java:265-274 | flushed pages have their cached contents on disk; every other page reads as before |
| Storage.BufferPool.FlushPage | src/java/simpledb/storage/BufferPool.java:297-308 | null: no-op; else a dirty page is logged and forced, then written (clean ones too) and marked clean |
| Storage.BufferPool.FlushPageById | src/java/simpledb/storage/BufferPool.java:257-261 | an uncached id is a no-op; a cached page is made most recently used and flushed |
| Storage.BufferPool.CommitVisit | src/java/simpledb/storage/BufferPool.java:270-272 | the before-image is refreshed, and the page is flushed when `tid` dirtied it |
| Storage.BufferPool.FlushPages | src/java/simpledb/storage/BufferPool.java:265-274 | the loop computes the commit sweep over a snapshot of the cache |
| Storage.BufferPool.FlushAllPages | src/java/simpledb/storage/BufferPool.java:232-237 | the loop computes the flush-everything sweep |
| Storage.BufferPool.CommitEffect | src/java/simpledb/storage/BufferPool.java:265-274 | commit succeeds exactly when every page `tid` dirtied can be written; those pages are then on disk and clean, every page has a fresh before-image, nothing else is written, and each is logged with a force |
| Storage.BufferPool.FlushAllEffect | src/java/simpledb/storage/BufferPool.java:232-237 | succeeds exactly when every cached page can be written; every cached page is then on disk and clean, other pages read as before, and only dirty pages are logged |
| Storage.BufferPool.DiscardPage | src/java/simpledb/storage/BufferPool.java:247-251 | the page leaves the cache unwritten; the others keep their place |
| Storage.BufferPool.DiscardPageByTxn | src/java/simpledb/storage/BufferPool.java:163-169 | exactly the pages `tid` dirtied leave the cache; the rest keep values and order |
| Storage.BufferPool.AbortEffect | src/java/simpledb/storage/BufferPool.java:163-169 | after an abort a page is cached exactly when it was and `tid` had not dirtied it, unchanged |
| Storage.BufferPool.TransactionComplete | src/java/simpledb/storage/BufferPool.java:148-161 | commit: the sweep, then release all of `tid`'s locks unless it raised (swallowed); abort: discard `tid`'s pages, nothing written, locks released |
| Storage.BufferPool.TransactionCommit | src/java/simpledb/storage/BufferPool.java:128-132 | `transactionComplete(tid)` is the commit |
| Storage.BufferPool.HoldsLock | src/java/simpledb/storage/BufferPool.java:135-139 | true exactly when `tid` has an entry in the page's row |
| Storage.BufferPool.UnsafeReleasePage | src/java/simpledb/storage/BufferPool.java:116-121 | `tid` no longer holds `pid`; every other entry and the cache are unchanged |
| HeapFileIterators.TailFetched | src/java/simpledb/util/HeapFileIterator.java:51-66 | when every page arrives, the remaining tuples are the pages' tuples concatenated in page order, and no exception is pending |
| HeapFileIterators.HeapFileIterator.constructor | src/java/simpledb/util/HeapFileIterator.java:27-31 | a new iterator is not open and returns nothing |
| HeapFileIterators.HeapFileIterator.Open | src/java/simpledb/util/HeapFileIterator.java:33-48 | position 0; page 0 is fetched even from a table with no pages; a fetch that raises (a null page, or an exception not caught) lets the exception escape; otherwise it will return every page's tuples in order up to the first page not delivered, raising there exactly when that fetch raises |
| HeapFileIterators.HeapFileIterator.HasNext | src/java/simpledb/util/HeapFileIterator.java:33-60 | raises exactly when no tuple remains before a fetch that raises, with that exception, standing at that page; otherwise true exactly when a tuple remains, consumes nothing, never moves past `numPages`, and a second call changes nothing |
| HeapFileIterators.HeapFileIterator.Next | src/java/simpledb/util/HeapFileIterator.java:63-66 | returns and consumes the first remaining tuple; when none remains, the exception of the fetch that raises ahead, else `NoSuchElementException` |
| HeapFileIterators.HeapFileIterator.Rewind | src/java/simpledb/util/HeapFileIterator.java:69-71 | the same state as `open` |
| HeapFileIterators.HeapFileIterator.Close | src/java/simpledb/util/HeapFileIterator.java:74-76 | nothing remains and nothing raises until the next `open` |
| Aggregation.InGroup | src/java/simpledb/execution/IntegerAggregator.java:87-95 | a group's tuples are some of the merged tuples |
| Aggregation.InGroupEmpty | src/java/simpledb/execution/IntegerAggregator.java:87-95 | a group has tuples exactly when some merged tuple carries its key |
| Aggregation.RowConforms | src/java/simpledb/execution/IntegerAggregator.java:98-105 | every output row fits the generated schema |
| IntegerAggregators.AddedStep | src/java/simpledb/execution/IntegerAggregator.java:55-61 | `add` turns the totals of the values so far into those of the values plus one more: first value gives count 1, sum v, min = max = v |
| IntegerAggregators.MergedGroups | src/java/simpledb/execution/IntegerAggregator.java:82-96 | after any merges, the groups are exactly the keys of merged tuples |
| IntegerAggregators.MergedTotals | src/java/simpledb/execution/IntegerAggregator.java:82-96 | after any merges, each group's count and sum (as `int`s), max and min are those of its values |
| IntegerAggregators.MergedTotalsLast | src/java/simpledb/execution/IntegerAggregator.java:88-95 | the same for the group of the last merged tuple |
| IntegerAggregators.MergedSnoc | src/java/simpledb/execution/IntegerAggregator.java:82-96 | merging one more tuple updates its group and leaves the others |
| IntegerAggregators.MergedKeys | src/java/simpledb/execution/IntegerAggregator.java:87 | keys are null exactly without grouping |
| IntegerAggregators.AggregateOfGroup | src/java/simpledb/execution/IntegerAggregator.java:63-72 | for a non-empty group without overflow, `getResult` is the count, the sum, the truncated mean, a reached min or max; unlisted operators give 0 |
| IntegerAggregators.MeanInRange | src/java/simpledb/execution/IntegerAggregator.java:67 | the truncated mean of an `int` sum over a positive count is an `int` |
| IntegerAggregators.ResInfo.constructor | src/java/simpledb/execution/IntegerAggregator.java:49-53 | fresh totals: count and sum 0, max `MIN_VALUE`, min `MAX_VALUE` |
| IntegerAggregators.ResInfo.Add | src/java/simpledb/execution/IntegerAggregator.java:55-61 | count and sum grow with wrap-around, and max and min widen to the value |
| IntegerAggregators.IntegerAggregator.constructor | src/java/simpledb/execution/IntegerAggregator.java:40-47 | no groups, no schema, the given fields and operator |
| IntegerAggregators.IntegerAggregator.AddToGroup | src/java/simpledb/execution/IntegerAggregator.java:88-95 | the value is added to its group's totals, and a new group starts fresh |
| IntegerAggregators.IntegerAggregator.AddToExisting | src/java/simpledb/execution/IntegerAggregator.java:88-90 | only that group's totals change |
| IntegerAggregators.IntegerAggregator.AddToNew | src/java/simpledb/execution/IntegerAggregator.java:91-94 | a fresh `ResInfo` holding the value joins the map |
| IntegerAggregators.IntegerAggregator.MergeTupleIntoGroup | src/java/simpledb/execution/IntegerAggregator.java:82-96 | the schema comes from the first tuple; the value joins its group; a non-integer field raises and merges nothing |
| IntegerAggregators.IntegerAggregator.Iterator | src/java/simpledb/execution/IntegerAggregator.java:114-131 | with grouping, one row per distinct key; without grouping, one row from the null key, which must exist |
| IntegerAggregators.IntegerAggregator.GroupRows | src/java/simpledb/execution/IntegerAggregator.java:117-123 | one (key, result) row per distinct group, or `ArithmeticException` exactly when some group's result raises |
| StringAggregators.BumpCounts | src/java/simpledb/execution/StringAggregator.java:53-56 | a new group counts 1, an existing one one more, and other groups are unchanged |
| StringAggregators.CountsSnoc | src/java/simpledb/execution/StringAggregator.java:50-57 | merging one more tuple bumps its group |
| StringAggregators.CountedGroups | src/java/simpledb/execution/StringAggregator.java:50-57 | the groups are exactly the keys of merged tuples |
| StringAggregators.CountsAreGroupSizes | src/java/simpledb/execution/StringAggregator.java:50-57 | each count is the number of tuples merged with its key, as an `int` |
| StringAggregators.AsWrittenSchemaMismatch | src/java/simpledb/execution/StringAggregator.java:59-66 | without grouping the schema as written never fits the count row; with grouping it is the shared schema |
| StringAggregators.StringAggregator.constructor | src/java/simpledb/execution/StringAggregator.java:38-43 | no groups, no schema, operator `COUNT` |
| StringAggregators.StringAggregator.Create | src/java/simpledb/execution/StringAggregator.java:35-44 | raises `IllegalArgumentException` exactly when the operator is not `COUNT`; otherwise starts empty |
| StringAggregators.StringAggregator.MergeTupleIntoGroup | src/java/simpledb/execution/StringAggregator.java:50-66 | the schema comes from the first tuple, as written (one STRING column without grouping); the group's count (default 0) goes up by one and no other group changes |
| StringAggregators.StringAggregator.Iterator | src/java/simpledb/execution/StringAggregator.java:76-93 | with grouping, one (key, count) row per distinct key; without grouping, the count of the null key, which must exist |
| Histograms.SumRangeBump | src/java/simpledb/optimizer/IntHistogram.java:57-58 | incrementing one height adds one to every range sum that covers it |
| Histograms.LayoutShaped | src/java/simpledb/optimizer/IntHistogram.java:39-44 | buckets = min(b, range) >= 1, width >= 1, `width*(buckets-1)+lastRange == range`, `lastRange >= width`, buckets <= requested |
| Histograms.BucketBounds | src/java/simpledb/optimizer/IntHistogram.java:55-56 | an in-range value's bucket index is in bounds, and the bucket covers the value |
| Histograms.ExampleShape | src/java/simpledb/optimizer/IntHistogram.java:35-46 | the finding's histogram is the constructor's layout, and 0 falls in bucket 0 |
| Histograms.GreaterOverflows | src/java/simpledb/optimizer/IntHistogram.java:110 | as written, the greater-than count of the example is -1096 |
| Histograms.GreaterExact | src/java/simpledb/optimizer/IntHistogram.java:108-116 | in exact arithmetic the same count is 2999 |
| Histograms.ExampleUnfolds | src/java/simpledb/optimizer/IntHistogram.java:110-111 | both counts of the example, one step unfolded |
| Histograms.ExampleTail | src/java/simpledb/optimizer/IntHistogram.java:111 | the example's second bucket adds nothing |
| Histograms.ExampleProduct | src/java/simpledb/optimizer/IntHistogram.java:110 | the example's product wraps to a negative number |
| Histograms.CountBounds | src/java/simpledb/optimizer/IntHistogram.java:108-126 | `getEqual` is at most the bucket's height; `getGreater` is at least the later buckets; together at most the bucket and later ones |
| Histograms.CountsWithinTotal | src/java/simpledb/optimizer/IntHistogram.java:118-126 | for an in-range value, `getEqual + getGreater <= totalTuples`, both non-negative, so `getLess >= 0` |
| Histograms.FractionInUnit | src/java/simpledb/optimizer/IntHistogram.java:79 | a count between 0 and the total is a fraction in [0, 1] |
| Histograms.FractionsComplement | src/java/simpledb/optimizer/IntHistogram.java:102 | counts summing to the total give fractions summing to 1 |
| Histograms.SelectivityInUnit | src/java/simpledb/optimizer/IntHistogram.java:71-106 | every estimate of a non-empty histogram is in [0, 1], except `LIKE`'s -1 |
| Histograms.GreaterComplementsAtMost | src/java/simpledb/optimizer/IntHistogram.java:75-94 | `>` and `<=` estimates add up to 1 for every value, boundary branches included |
| Histograms.AtLeastComplementsLess | src/java/simpledb/optimizer/IntHistogram.java:80-89 | `>=` and `<` estimates add up to 1 for every value |
| Histograms.EqualsComplementsNotEquals | src/java/simpledb/optimizer/IntHistogram.java:95-102 | `=` and `<>` estimates add up to 1 for every value |
| Histograms.IntHistogram.constructor | src/java/simpledb/optimizer/IntHistogram.java:35-46 | the shape of `Layout`, `heights` of the requested length, all zero, no tuples |
| Histograms.IntHistogram.AddValue | src/java/simpledb/optimizer/IntHistogram.java:52-59 | out of range: no change; else exactly its bucket's height and `totalTuples` go up by one; heights keep summing to `totalTuples` |
| Histograms.IntHistogram.GetGreater | src/java/simpledb/optimizer/IntHistogram.java:108-116 | the loop computes `GreaterCount`: at least the later buckets, and with `getEqual` at most `totalTuples` |
| Histograms.IntHistogram.GetLess | src/java/simpledb/optimizer/IntHistogram.java:118-120 | `totalTuples - getEqual - getGreater`, between 0 and `totalTuples` |
| Histograms.IntHistogram.BucketIndex | src/java/simpledb/optimizer/IntHistogram.java:72 | for an in-range value, the Java `int` index is the value's bucket |
| Histograms.IntHistogram.EstimateSelectivity | src/java/simpledb/optimizer/IntHistogram.java:71-106 | the estimate `Selectivity` defines, boundary constants included |

## Left out

**Concurrency and timing**

- `synchronized` and `ConcurrentHashMap` are not modelled; every call is modelled as atomic and sequential.
- The wall-clock spin of `tryLock`, with its random 1000-2500 ms timeout, is not modelled. `LockManagers.LockManager.TryLock` is one `acquireLock` attempt, because the monitor keeps the table unchanged while it spins.

**Lock manager**

- `PageLock` objects inside the lock table are not modelled. A row is a map from transaction to stored type. An entry's `tid` always equals its row key, and `setType` becomes a map update.
- `PageLocks.PageLock` is modelled on its own. `getTid`/`getType` are reads of its fields.

**Pages and files**

- `Storage.HeapFile.ReadPage`: places page `pno` at the exact offset `pno * 4096`, the corrected form of the `int` product at HeapFile.java:90 (see Findings). The Java code returns null for page numbers whose wrapped offset is negative (from 2^19) and reads another page's bytes when the product wraps to a non-negative offset (page 2^20 reads page 0); the model reads page `pno`.
- `Storage.HeapFile.WritePage`: writes at the exact offset, the corrected form of the `int` product at HeapFile.java:104. The Java code raises `IOException` for page numbers whose wrapped offset is negative and overwrites another page when the product wraps to a non-negative offset (page 2^20 overwrites page 0); the model writes page `pno` alone.
- HeapPage.java is not part of this model. A page is:
  - an id;
  - a slot view, with `None` for an empty slot;
  - a dirty marker;
  - a before-image.
- Page bytes, the header bitmap and serialisation are not modelled. The slot count per page is a constant of each heap file.
- `RandomAccessFile` is modelled as the `Disk` map of file states. An `IOException` on read or write comes from the per-file flags `unreadable`/`unwritable` and from negative page numbers. The constructor's printed `FileNotFoundException` is not modelled.
- `HeapFile.getFile`, `getId` (a hash of the path) and `getTupleDesc` are not modelled: the table id is given. `HeapFile.iterator` is the `HeapFileIterators.HeapFileIterator` constructor.
- The page size is fixed at 4096. `setPageSize`/`resetPageSize` are test-only and not modelled.

**Catalog and log**

- Catalog.java is not part of this model. The catalog is a map fixed when the pool is built. An unknown table raises `NoSuchElementException`.
- LogFile.java is not part of this model. The log is a sequence of update and force records.

**Iteration order**

- The iteration order of the Java `HashMap` is unspecified:
  - `LruCache.LRUCache.GetValueIterator` returns values in recency order;
  - the flush and discard sweeps visit pages in recency order;
  - the aggregator iterators return their key order as a ghost output.

**Heap file iterator**

- `HeapFileIterator` fetches pages through the buffer pool. Here the outcome of each fetch is a parameter: `pages` for pages `0 .. numPages - 1` and `beyond` for the page 0 that `open` fetches from a table with no pages. An outcome is the page's tuples, a caught exception, or an exception that escapes (`NullPointerException` for a null page, or one `getPage` raises that is not caught). The lock and cache effects of those fetches are not part of the iterator.
- `numPages` is fixed when the iterator is created.

**Tuples and aggregators**

- Tuple.java is not part of this model. `setField` and schema checks are not modelled. The aggregators require the field indexes they read to exist (`Readable`, `Groupable`); Java would raise on a bad index.
- The null `gbfieldtype` without grouping is not modelled: a type is always passed.
- `TupleIterator` is not modelled: `iterator` returns the sequence of output rows.

**Histogram**

- Floating point is not modelled. `Histograms.Ratio` divides exact reals. With `totalTuples == 0` Java yields NaN or Infinity, and `Ratio` requires a non-empty histogram.
- `avgSelectivity` and `toString` are not modelled.
- `Histograms.IntHistogram.constructor`: requires at least one bucket, `min <= max` and a range that fits an `int`. Outside that, Java behaves three ways. A negative bucket count raises `NegativeArraySizeException` at `new int[buckets]` (IntHistogram.java:41). `width = range / this.buckets` divides by zero when `min == max + 1`, or when there are no buckets and the range is positive. When the range is negative (`min > max + 1`, or `max - min + 1` wrapping past `int`), `this.buckets` takes that range, `width` is 1 and nothing is raised.
- `Histograms.IntHistogram.AddValue`: does not model `totalTuples` wrapping after 2^31-1 added values, because it requires `totalTuples < MAX_VALUE`.
- `Histograms.IntHistogram.GetGreater`: computes in exact integers, the corrected form. The Java `int` overflow it corrects is `Histograms.GreaterAsWritten` (see Findings).

**Cache edge cases**

- `LruCache.LRUCache.EvictOldest`: requires a positive capacity or a non-empty cache. Otherwise Java unlinks the head sentinel and raises `NullPointerException`, which is not modelled.

## Findings

| source | as written | input that shows it | evidently intended | confidence | as-written member | corrected member |
|---|---|---|---|---|---|---|
| src/java/simpledb/storage/HeapFile.java:90 | the page offset `pno*BufferPool.getPageSize()` is an `int` product | page number 2^19 gives offset -2^31, so `readPage` answers null; page 2^20 gives offset 0, so `writePage` overwrites page 0 | a `long` offset, `pno * 4096` | not executed | Storage.OffsetAsWrittenOverflows | Storage.OffsetsDisjoint |
| src/java/simpledb/execution/StringAggregator.java:60-61 | without grouping the output schema is one `STRING_TYPE` column | `gbfield = NO_GROUPING`, any merged tuple: the one output row holds an `IntField` count | one `INT_TYPE` column, as in IntegerAggregator.java:100 | not executed | StringAggregators.AsWrittenSchemaMismatch | Aggregation.RowConforms |
| src/java/simpledb/optimizer/IntHistogram.java:110 | `(width-1-(v-minVal)%width)*heights[idx]` is an `int` product, wrapped before the division | 2 buckets over [0, 2^21-1], 3000 values added in bucket 0 and none in bucket 1; `GREATER_THAN 0` counts -1096, a selectivity below 0 | the exact count 2999 (a `long` product) | not executed | Histograms.GreaterOverflows | Histograms.GreaterExact |
