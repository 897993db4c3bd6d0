/** The storage engine: heap files on an abstract disk, the log, and the buffer pool that
    caches pages, takes page locks and decides what reaches the disk. `HeapFile` and
    `BufferPool` call each other (a heap file fetches its pages through the pool, the pool
    hands inserts and deletes to the heap file), so both live in this module. */
module Storage {
  import opened Wrappers
  import opened JavaInts
  import opened DbTypes
  import opened Pages
  import opened LruCache
  import opened PageLocks
  import opened LockManagers
  import opened Eviction

  /** Bytes per page (`BufferPool.DEFAULT_PAGE_SIZE`). */
  const PageSize: int := 4096

  // ---------------------------------------------------------------- page offsets

  /** The byte offset of page `pno` as `HeapFile` computes it: a product of two Java `int`s,
      which wraps around once it passes `MaxInt`. */
  function OffsetAsWritten(pno: Int32): (r: Int32)
    ensures 0 <= pno < 0x8_0000 ==> r == pno * PageSize
  {
    Wrap32(pno * PageSize)
  }

  /** Page 2^19 gets a negative offset, so `seek` raises and `readPage` answers null for a
      page that exists; page 2^20 gets offset 0, so `writePage` overwrites page 0. */
  lemma OffsetAsWrittenOverflows()
    ensures OffsetAsWritten(0x8_0000) < 0
    ensures OffsetAsWritten(0x10_0000) == OffsetAsWritten(0)
  {
  }

  /** The byte offset of page `pno`, computed without overflow (as a Java `long`). */
  function Offset(pno: int): (r: int)
  {
    pno * PageSize
  }

  /** Distinct pages occupy disjoint byte ranges, and a page of non-negative number starts at
      a non-negative offset. */
  lemma OffsetsDisjoint(a: int, b: int)
    ensures a >= 0 ==> Offset(a) >= 0
    ensures a != b ==> Offset(a) + PageSize <= Offset(b) || Offset(b) + PageSize <= Offset(a)
  {
  }

  /** Writing page `numPages()` just past the end of a file adds exactly one page. */
  lemma AppendAddsOnePage(length: nat)
    ensures var n := length / PageSize;
      Max(length, Offset(n) + PageSize) / PageSize == n + 1
  {
    var n := length / PageSize;
    assert length < (n + 1) * PageSize;
    assert Max(length, Offset(n) + PageSize) == (n + 1) * PageSize;
  }

  function Max(a: int, b: int): int {
    if a < b then b else a
  }

  // ---------------------------------------------------------------- disk and log

  /** The bytes of one table's file: its length and the page images written to it, by byte
      offset. Bytes never written read as zeros, that is as an empty page. */
  datatype FileState = FileState(length: nat, blocks: map<int, Image>)

  /** The files of all tables, by table id. */
  class Disk {
    var files: map<int, FileState>

    constructor (files: map<int, FileState>)
      ensures this.files == files
    {
      this.files := files;
    }

    function FileOf(tableId: int): FileState
      reads this
    {
      FileIn(files, tableId)
    }

    /** `seek(offset)` then `write(img)` on one table's file. */
    method Write(tableId: int, offset: int, img: Image)
      requires offset >= 0
      modifies this
      ensures files == WriteAt(old(files), tableId, offset, img)
    {
      files := WriteAt(files, tableId, offset, img);
    }
  }

  /** A table's file; a table never written has an empty file. */
  function FileIn(files: map<int, FileState>, tableId: int): FileState {
    if tableId in files then files[tableId] else FileState(0, map[])
  }

  /** The files after `img` is written at `offset` of one table's file: the image lands at
      that offset, the file grows to cover it, and every other file is as it was. */
  function WriteAt(files: map<int, FileState>, tableId: int, offset: int, img: Image): (r: map<int, FileState>)
    ensures FileIn(r, tableId).blocks == FileIn(files, tableId).blocks[offset := img]
    ensures FileIn(r, tableId).length == Max(FileIn(files, tableId).length, offset + PageSize)
    ensures forall t | t != tableId :: FileIn(r, t) == FileIn(files, t)
  {
    var f := FileIn(files, tableId);
    files[tableId := FileState(Max(f.length, offset + PageSize), f.blocks[offset := img])]
  }

  /** The image of page `pno` in a file; bytes never written parse as an empty page. */
  function BlockAt(f: FileState, pno: int, slotsPerPage: nat): Image {
    if Offset(pno) in f.blocks then f.blocks[Offset(pno)] else EmptyImage(slotsPerPage)
  }

  /** A record of the write-ahead log: an update with the page's before- and after-image, or
      a force of the log to disk. */
  datatype LogRecord = Update(tid: TransactionId, before: Image, after: Image) | ForceRecord

  /** The log file (`LogFile.logWrite`, `LogFile.force`); LogFile.java is not part of this
      model, so each call simply appends its record. */
  class LogFile {
    var records: seq<LogRecord>

    constructor ()
      ensures records == []
    {
      records := [];
    }

    method LogWrite(tid: TransactionId, before: Image, after: Image)
      modifies this
      ensures records == old(records) + [Update(tid, before, after)]
    {
      records := records + [Update(tid, before, after)];
    }

    method Force()
      modifies this
      ensures records == old(records) + [ForceRecord]
    {
      records := records + [ForceRecord];
    }
  }

  /** The log records `flushPage` writes for one page: an update and a force when the page
      is dirty, nothing when it is clean. */
  function FlushRecords(p: Page): (r: seq<LogRecord>)
    ensures r == [] <==> p.dirtier.None?
  {
    if p.dirtier.Some? then [Update(p.dirtier.value, p.beforeImage, p.slots), ForceRecord] else []
  }

  // ---------------------------------------------------------------- heap file

  /** The first-fit scan stops at an exception and at a page with an empty slot. */
  predicate Stops(g: Result<Option<Page>, DbError>) {
    g.Err? || (g.value.Some? && NumEmptySlots(g.value.value.slots) > 0)
  }

  /** The cache after a page object it holds was changed in place through another reference:
      the entry under the page's id takes the new value and keeps its recency; a page that is
      no longer cached is not affected. */
  function InPlace(v: CacheView, p: Page): (w: CacheView)
    ensures w.order == v.order && w.entries.Keys == v.entries.Keys
    ensures p.id in v.entries ==> w.entries[p.id] == p
    ensures forall k | k in v.entries && k != p.id :: w.entries[k] == v.entries[k]
  {
    if p.id in v.entries then CacheView(v.entries[p.id := p], v.order) else v
  }

  /** Changing a cached page in place keeps the cache's invariant and residency. */
  lemma InPlaceValid(v: CacheView, p: Page, tables: set<int>)
    requires ViewValid(v) && Resident(v.entries, tables)
    ensures ViewValid(InPlace(v, p)) && Resident(InPlace(v, p).entries, tables)
  {
    if p.id in v.entries {
      var e := v.entries[p.id := p];
      forall i | 0 <= i < |v.order| ensures Mapped(e, v.order, i) {
        assert Mapped(v.entries, v.order, i);
      }
    }
  }


  // ---------------------------------------------------------------- commit, flush and abort

  /** A cached page whose dirty marker names `tid` (Java compares the marker with `==`). */
  predicate DirtyBy(m: map<PageId, Page>, k: PageId, tid: TransactionId) {
    k in m && m[k].dirtier == Some(tid)
  }

  /** `setBeforeImage`: the page's current contents become its before-image. */
  function Refreshed(p: Page): Page {
    p.(beforeImage := p.slots)
  }

  /** What `flushPages(tid)` does to one cached page when it succeeds: its before-image is
      refreshed and, when `tid` dirtied it, it is written out and marked clean. */
  function Committed(p: Page, tid: TransactionId): Page {
    var q := Refreshed(p);
    if q.dirtier == Some(tid) then q.(dirtier := None) else q
  }

  /** The log records `flushPages(tid)` writes while it visits the keys of `done`, in order:
      `flushPage` logs each page dirtied by `tid`, after its before-image was refreshed. */
  function CommitLog(m: map<PageId, Page>, done: seq<PageId>, tid: TransactionId): seq<LogRecord> {
    if done == [] then []
    else
      var k := done[|done| - 1];
      CommitLog(m, done[..|done| - 1], tid) + (if DirtyBy(m, k, tid) then FlushRecords(Refreshed(m[k])) else [])
  }

  /** The log records `flushAllPages` writes while it visits the keys of `done`: those of
      the dirty pages only. */
  function FlushLog(m: map<PageId, Page>, done: seq<PageId>): seq<LogRecord> {
    if done == [] then []
    else
      var k := done[|done| - 1];
      FlushLog(m, done[..|done| - 1]) + (if k in m then FlushRecords(m[k]) else [])
  }

  /** A force, or an update by `tid` whose before-image is its after-image. */
  predicate BlindRecord(r: LogRecord, tid: TransactionId) {
    r == ForceRecord || (r.Update? && r.tid == tid && r.before == r.after)
  }

  /** `flushPages` refreshes a page's before-image before it logs the page, so every update
      record it writes carries `tid` and the same image as before- and after-image. */
  lemma {:induction false} CommitLogBlind(m: map<PageId, Page>, done: seq<PageId>, tid: TransactionId)
    ensures forall i | 0 <= i < |CommitLog(m, done, tid)| :: BlindRecord(CommitLog(m, done, tid)[i], tid)
  {
    if done != [] {
      var k := done[|done| - 1];
      CommitLogBlind(m, done[..|done| - 1], tid);
      var a := CommitLog(m, done[..|done| - 1], tid);
      var b := if DirtyBy(m, k, tid) then FlushRecords(Refreshed(m[k])) else [];
      assert CommitLog(m, done, tid) == a + b;
      forall i | 0 <= i < |a + b|
        ensures BlindRecord((a + b)[i], tid)
      {
        if i >= |a| {
          assert b == [Update(tid, m[k].slots, m[k].slots), ForceRecord];
          assert (a + b)[i] == b[i - |a|];
        } else {
          assert (a + b)[i] == a[i];
        }
      }
    }
  }

  /** A visit of `flushAllPages` writes log records only for dirty pages: when every page
      visited is clean, nothing is logged (though every page is still written). */
  lemma {:induction false} FlushLogClean(m: map<PageId, Page>, done: seq<PageId>)
    requires forall k | k in m :: m[k].dirtier.None?
    ensures FlushLog(m, done) == []
  {
    if done != [] {
      FlushLogClean(m, done[..|done| - 1]);
    }
  }

  /** What a flush loop has done so far, as values: the outcome, the cache, the files and
      the log records written. */
  datatype FlushState = FlushState(out: Outcome<DbError>, view: CacheView, files: map<int, FileState>, log: seq<LogRecord>)

  /** Which flush loop: `None` is `flushAllPages`, which flushes every page; `Some(tid)` is
      `flushPages(tid)`, which refreshes every page's before-image and flushes the pages
      `tid` dirtied. */
  type Sweep = Option<TransactionId>

  /** The pages a sweep flushes. */
  predicate Selected(m: map<PageId, Page>, k: PageId, sweep: Sweep) {
    if sweep.None? then k in m else DirtyBy(m, k, sweep.value)
  }

  /** A page after a successful visit of the sweep. */
  function Swept(p: Page, sweep: Sweep): Page {
    if sweep.None? then p.(dirtier := None) else Committed(p, sweep.value)
  }

  /** The log records a sweep writes while it visits the keys of `done`. */
  function SweepLog(m: map<PageId, Page>, done: seq<PageId>, sweep: Sweep): seq<LogRecord> {
    if sweep.None? then FlushLog(m, done) else CommitLog(m, done, sweep.value)
  }

  /** The cached pages `tid` dirtied among the keys of `done`. */
  ghost function DirtySet(m: map<PageId, Page>, done: seq<PageId>, tid: TransactionId): set<PageId> {
    set k | k in done && DirtyBy(m, k, tid)
  }

  /** One step of `discardPageByTxn`: dropping the next key when `tid` dirtied it, and
      nothing otherwise, moves the cache to the state for the longer prefix. */
  lemma DiscardStep(m: map<PageId, Page>, o: seq<PageId>, i: nat, tid: TransactionId)
    requires i < |o| && NoDup(o)
    ensures var gone, next := DirtySet(m, o[..i], tid), DirtySet(m, o[..i + 1], tid);
      if DirtyBy(m, o[i], tid) then
        m - gone - {o[i]} == m - next && RemoveKey(Filter(o, gone), o[i]) == Filter(o, next)
      else next == gone
  {
    assert o[..i + 1] == o[..i] + [o[i]];
    var gone := DirtySet(m, o[..i], tid);
    if DirtyBy(m, o[i], tid) {
      assert DirtySet(m, o[..i + 1], tid) == gone + {o[i]};
      RemoveKeyFilter(o, gone, o[i]);
    }
  }

  /** `HeapFile`: a table stored as a sequence of fixed-size pages in one file of the disk.
      `slotsPerPage` is the page capacity `HeapPage` derives from the tuple descriptor;
      `unreadable` and `unwritable` stand for a medium on which every read, resp. every
      write, raises `IOException`. */
  class HeapFile {
    const tableId: int
    const slotsPerPage: nat
    const unreadable: bool
    const unwritable: bool
    const disk: Disk

    constructor (tableId: int, slotsPerPage: nat, unreadable: bool, unwritable: bool, disk: Disk)
      ensures this.tableId == tableId && this.slotsPerPage == slotsPerPage
      ensures this.unreadable == unreadable && this.unwritable == unwritable && this.disk == disk
    {
      this.tableId := tableId;
      this.slotsPerPage := slotsPerPage;
      this.unreadable := unreadable;
      this.unwritable := unwritable;
      this.disk := disk;
    }

    function Length(): nat
      reads disk
    {
      disk.FileOf(tableId).length
    }

    /** `numPages`: the whole pages in the file (a trailing partial page does not count). */
    function NumPages(): (n: nat)
      reads disk
      ensures n * PageSize <= Length() < (n + 1) * PageSize
    {
      Length() / PageSize
    }

    /** The image stored for page `pno`; bytes never written parse as an empty page. */
    function ImageAt(pno: int): Image
      reads disk
    {
      BlockAt(disk.FileOf(tableId), pno, slotsPerPage)
    }

    /** `readPage`: the page parsed from the bytes at its offset, clean; null when the read
        raises (a failing medium, or the negative offset of a negative page number). */
    function ReadPage(pid: PageId): (r: Option<Page>)
      reads disk
      ensures r.Some? <==> !unreadable && pid.pageNumber >= 0
      ensures r.Some? ==> r.value.id == pid && r.value.dirtier.None?
    {
      if unreadable || pid.pageNumber < 0 then None
      else Some(FromDisk(pid, ImageAt(pid.pageNumber)))
    }

    /** `writePage`: the page's image replaces exactly the bytes of its own page number; every
        other page of every file reads as before, and the file grows to cover the page. */
    method WritePage(page: Page) returns (out: Outcome<DbError>)
      modifies disk
      ensures out.Fail? <==> unwritable || page.id.pageNumber < 0
      ensures out.Fail? ==> out.error == IOError && disk.files == old(disk.files)
      ensures out.Pass? ==> ImageAt(page.id.pageNumber) == page.slots
      ensures out.Pass? ==> disk.files == WriteAt(old(disk.files), tableId, Offset(page.id.pageNumber), page.slots)
      ensures out.Pass? ==>
        ReadPage(page.id) == (if unreadable then None else Some(FromDisk(page.id, page.slots))) &&
        (forall q | q != page.id.pageNumber :: ImageAt(q) == old(ImageAt(q))) &&
        Length() == Max(old(Length()), Offset(page.id.pageNumber) + PageSize) &&
        (forall t | t != tableId :: disk.FileOf(t) == old(disk.FileOf(t)))
    {
      if unwritable || page.id.pageNumber < 0 {
        return Fail(IOError);
      }
      OffsetsDisjoint(page.id.pageNumber, 0);
      disk.Write(tableId, Offset(page.id.pageNumber), page.slots);
      forall q | q != page.id.pageNumber ensures ImageAt(q) == old(ImageAt(q)) {
        OffsetsDisjoint(q, page.id.pageNumber);
      }
      return Pass;
    }

    /** The first-fit scan of `insertTuple`, from page `i` of `n`: each page is fetched through
        the pool for writing; the scan stops at the first page with an empty slot and at the
        first exception, and passes over a page that is full or could not be read (null).
        `Ok(None)`: no page had room. */
    ghost function ScanSpec(pool: BufferPool, s: PoolState, tid: TransactionId, i: nat, n: nat): (r: (Result<Option<Page>, DbError>, PoolState))
      reads pool.disk
      requires pool.CatalogOk() && pool.StateOk(s)
      decreases n - i
    {
      if i >= n then (Ok(None), s)
      else
        pool.GetSpecOk(s, tid, PageId(tableId, i), ReadWrite);
        var got := pool.GetSpec(s, tid, PageId(tableId, i), ReadWrite);
        if Stops(got.0) then got else ScanSpec(pool, got.1, tid, i + 1, n)
    }

    lemma {:induction false} ScanSpecOk(pool: BufferPool, s: PoolState, tid: TransactionId, i: nat, n: nat)
      requires pool.CatalogOk() && pool.StateOk(s)
      ensures var r := ScanSpec(pool, s, tid, i, n);
        pool.StateOk(r.1) &&
        (r.0.Ok? && r.0.value.Some? ==>
          r.0.value.value.id.tableId == tableId && i <= r.0.value.value.id.pageNumber < n &&
          NumEmptySlots(r.0.value.value.slots) > 0)
      decreases n - i
    {
      if i < n {
        pool.GetSpecOk(s, tid, PageId(tableId, i), ReadWrite);
        var got := pool.GetSpec(s, tid, PageId(tableId, i), ReadWrite);
        if Stops(got.0) {
          assert ScanSpec(pool, s, tid, i, n) == got;
        } else {
          ScanSpecOk(pool, got.1, tid, i + 1, n);
          assert ScanSpec(pool, s, tid, i, n) == ScanSpec(pool, got.1, tid, i + 1, n);
        }
      }
    }

    /** The pool state in which the scan from page `i` fetches page `j`: every page from `i`
        to `j - 1` has been fetched in turn. */
    ghost function ScanState(pool: BufferPool, s: PoolState, tid: TransactionId, i: nat, j: nat): (r: PoolState)
      reads pool.disk
      requires pool.CatalogOk() && pool.StateOk(s)
      ensures pool.StateOk(r)
      decreases j - i
    {
      if i >= j then s
      else
        pool.GetSpecOk(s, tid, PageId(tableId, i), ReadWrite);
        ScanState(pool, pool.GetSpec(s, tid, PageId(tableId, i), ReadWrite).1, tid, i + 1, j)
    }

    /** What the scan from page `i` gets when it fetches page `j`. */
    ghost function ScanFetch(pool: BufferPool, s: PoolState, tid: TransactionId, i: nat, j: nat): Result<Option<Page>, DbError>
      reads pool.disk
      requires pool.CatalogOk() && pool.StateOk(s)
    {
      pool.GetSpec(ScanState(pool, s, tid, i, j), tid, PageId(tableId, j), ReadWrite).0
    }

    /** Fetching page `j > i` in the scan from `i` is fetching it in the scan from `i + 1`
        that starts after page `i` was fetched. */
    lemma ScanFetchShift(pool: BufferPool, s: PoolState, tid: TransactionId, i: nat, j: nat)
      requires pool.CatalogOk() && pool.StateOk(s) && i < j
      ensures pool.StateOk(pool.GetSpec(s, tid, PageId(tableId, i), ReadWrite).1)
      ensures ScanFetch(pool, s, tid, i, j) ==
        ScanFetch(pool, pool.GetSpec(s, tid, PageId(tableId, i), ReadWrite).1, tid, i + 1, j)
    {
      pool.GetSpecOk(s, tid, PageId(tableId, i), ReadWrite);
    }

    /** One step of the scan from `i < n`: it fetches page `i` and stops there when that page
        has room or the fetch raised, else goes on from page `i + 1`. */
    lemma ScanStep(pool: BufferPool, s: PoolState, tid: TransactionId, i: nat, n: nat)
      requires pool.CatalogOk() && pool.StateOk(s) && i < n
      ensures var got := pool.GetSpec(s, tid, PageId(tableId, i), ReadWrite);
        pool.StateOk(got.1) && ScanFetch(pool, s, tid, i, i) == got.0 &&
        (got.0.Ok? && got.0.value.Some? ==> got.0.value.value.id == PageId(tableId, i)) &&
        ScanSpec(pool, s, tid, i, n) == if Stops(got.0) then got else ScanSpec(pool, got.1, tid, i + 1, n)
    {
      pool.GetSpecOk(s, tid, PageId(tableId, i), ReadWrite);
    }

    /** A scan from `i` that ends without a page, or returns a page after page `i`, passes
        page `i`: that page was full or null, and the scan goes on from page `i + 1`. */
    lemma ScanPasses(pool: BufferPool, s: PoolState, tid: TransactionId, i: nat, n: nat)
      requires pool.CatalogOk() && pool.StateOk(s) && i < n
      requires var r := ScanSpec(pool, s, tid, i, n).0;
        r == Ok(None) || (r.Ok? && r.value.Some? && i < r.value.value.id.pageNumber)
      ensures var got := pool.GetSpec(s, tid, PageId(tableId, i), ReadWrite);
        pool.StateOk(got.1) && !Stops(ScanFetch(pool, s, tid, i, i)) &&
        ScanSpec(pool, s, tid, i, n) == ScanSpec(pool, got.1, tid, i + 1, n)
    {
      ScanStep(pool, s, tid, i, n);
    }

    /** The state reached from `i` at `j > i` is the one reached from `i + 1` after page `i`
        was fetched. */
    lemma ScanStateStep(pool: BufferPool, s: PoolState, tid: TransactionId, i: nat, j: nat)
      requires pool.CatalogOk() && pool.StateOk(s) && i < j
      ensures pool.StateOk(pool.GetSpec(s, tid, PageId(tableId, i), ReadWrite).1)
      ensures ScanState(pool, s, tid, i, j) ==
        ScanState(pool, pool.GetSpec(s, tid, PageId(tableId, i), ReadWrite).1, tid, i + 1, j)
    {
      pool.GetSpecOk(s, tid, PageId(tableId, i), ReadWrite);
    }

    /** A scan from `i` that ends without a page, or returns page `j` or a later one, has
        passed pages `i` to `j - 1`: from there it goes on as the scan from `j` would in the
        state those fetches left. */
    lemma {:induction false} ScanReach(pool: BufferPool, s: PoolState, tid: TransactionId, i: nat, n: nat, j: nat)
      requires pool.CatalogOk() && pool.StateOk(s) && i <= j <= n
      requires var r := ScanSpec(pool, s, tid, i, n).0;
        r == Ok(None) || (r.Ok? && r.value.Some? && j <= r.value.value.id.pageNumber)
      ensures ScanSpec(pool, s, tid, i, n) == ScanSpec(pool, ScanState(pool, s, tid, i, j), tid, j, n)
      decreases j - i
    {
      if i < j {
        ScanPasses(pool, s, tid, i, n);
        var next := pool.GetSpec(s, tid, PageId(tableId, i), ReadWrite).1;
        ScanReach(pool, next, tid, i + 1, n, j);
        ScanStateStep(pool, s, tid, i, j);
        var t := ScanState(pool, s, tid, i, j);
        assert t == ScanState(pool, next, tid, i + 1, j);
        assert ScanSpec(pool, s, tid, i, n) == ScanSpec(pool, t, tid, j, n);
      } else {
        assert ScanState(pool, s, tid, i, j) == s;
      }
    }

    /** Every page the scan from `i` passes before it ends without a page, or before the page
        it returns, was full or null when fetched. */
    lemma ScanSkips(pool: BufferPool, s: PoolState, tid: TransactionId, i: nat, n: nat, j: nat)
      requires pool.CatalogOk() && pool.StateOk(s) && i <= j < n
      requires var r := ScanSpec(pool, s, tid, i, n).0;
        r == Ok(None) || (r.Ok? && r.value.Some? && j < r.value.value.id.pageNumber)
      ensures !Stops(ScanFetch(pool, s, tid, i, j))
    {
      ScanReach(pool, s, tid, i, n, j);
      var t := ScanState(pool, s, tid, i, j);
      ScanPasses(pool, t, tid, j, n);
      assert ScanFetch(pool, t, tid, j, j) == ScanFetch(pool, s, tid, i, j);
    }

    /** The page the scan from `i` returns is what fetching that page gave. */
    lemma {:induction false} ScanFound(pool: BufferPool, s: PoolState, tid: TransactionId, i: nat, n: nat)
      requires pool.CatalogOk() && pool.StateOk(s) && i < n
      requires var r := ScanSpec(pool, s, tid, i, n).0; r.Ok? && r.value.Some?
      ensures var r := ScanSpec(pool, s, tid, i, n).0; var k := r.value.value.id.pageNumber;
        i <= k && r == ScanFetch(pool, s, tid, i, k)
      decreases n - i
    {
      pool.GetSpecOk(s, tid, PageId(tableId, i), ReadWrite);
      var got := pool.GetSpec(s, tid, PageId(tableId, i), ReadWrite);
      assert ScanFetch(pool, s, tid, i, i) == got.0;
      if !Stops(got.0) {
        assert ScanSpec(pool, s, tid, i, n) == ScanSpec(pool, got.1, tid, i + 1, n);
        ScanFound(pool, got.1, tid, i + 1, n);
        ScanFetchShift(pool, s, tid, i, ScanSpec(pool, s, tid, i, n).0.value.value.id.pageNumber);
      }
    }

    /** The scan is first fit: a page it returns is what fetching that page gave, and every
        page fetched before it was full or null; when it finds no page, every page from `i` to
        `n - 1` was full or null. */
    lemma ScanFirstFit(pool: BufferPool, s: PoolState, tid: TransactionId, i: nat, n: nat)
      requires pool.CatalogOk() && pool.StateOk(s)
      ensures var r := ScanSpec(pool, s, tid, i, n).0;
        (r == Ok(None) ==> forall j | i <= j < n :: !Stops(ScanFetch(pool, s, tid, i, j))) &&
        (r.Ok? && r.value.Some? ==>
          var k := r.value.value.id.pageNumber;
          i <= k && r == ScanFetch(pool, s, tid, i, k) &&
          forall j | i <= j < k :: !Stops(ScanFetch(pool, s, tid, i, j)))
    {
      var r := ScanSpec(pool, s, tid, i, n).0;
      if r.Ok? && r.value.Some? {
        ScanSpecOk(pool, s, tid, i, n);
        ScanFound(pool, s, tid, i, n);
      }
      forall j | i <= j < n && (r == Ok(None) || (r.Ok? && r.value.Some? && j < r.value.value.id.pageNumber))
        ensures !Stops(ScanFetch(pool, s, tid, i, j))
      {
        ScanSkips(pool, s, tid, i, n, j);
      }
    }

    /** The loop of `insertTuple` over the existing pages. */
    method ScanForRoom(pool: BufferPool, tid: TransactionId) returns (found: Result<Option<Page>, DbError>)
      requires pool.Valid() && pool.disk == disk
      modifies pool.cache, pool.lockManager
      ensures pool.Valid()
      ensures (found, pool.State()) == ScanSpec(pool, old(pool.State()), tid, 0, NumPages())
    {
      ghost var s0 := pool.State();
      var n := NumPages();
      var i := 0;
      while i < n
        invariant pool.Valid() && i <= n
        invariant ScanSpec(pool, pool.State(), tid, i, n) == ScanSpec(pool, s0, tid, 0, n)
      {
        var page := pool.GetPage(tid, PageId(tableId, i), ReadWrite);
        if Stops(page) {
          return page;
        }
        i := i + 1;
      }
      return Ok(None);
    }

    /** `insertTuple` when some existing page has room, or the scan raised: the tuple is
        stored in place in the first page with room, which is returned alone. `None`: no page
        has room, and `Append` takes over. */
    ghost function FitSpec(pool: BufferPool, s: PoolState, tid: TransactionId, row: Row): Option<(Result<seq<Page>, DbError>, PoolState)>
      reads pool.disk, disk
      requires pool.CatalogOk() && pool.StateOk(s)
    {
      ScanSpecOk(pool, s, tid, 0, NumPages());
      var scan := ScanSpec(pool, s, tid, 0, NumPages());
      if scan.0.Err? then Some((Err(scan.0.error), scan.1))
      else if scan.0.value.None? then None
      else
        var q := Filled(scan.0.value.value, row);
        Some((Ok([q]), PoolState(scan.1.locks, InPlace(scan.1.view, q))))
    }

    /** The pool state the first-fit scan of `insertTuple` ends in. */
    ghost function ScanEnd(pool: BufferPool, s: PoolState, tid: TransactionId): (r: PoolState)
      reads pool.disk, disk
      requires pool.CatalogOk() && pool.StateOk(s)
      ensures pool.StateOk(r)
    {
      ScanSpecOk(pool, s, tid, 0, NumPages());
      ScanSpec(pool, s, tid, 0, NumPages()).1
    }

    /** The outcome `(r, s)` of `insertTuple` and the files it leaves, given the first-fit
        outcome `fit`, the state `scanned` the scan ended in, and the page count `n` and files
        `files0` it started from; read against the disk as `insertTuple` leaves it. With room
        found, the files are untouched; otherwise an unwritable file raises `IOException`
        after the scan, and a writable one gains an empty page `n`, which is then fetched and
        filled as `FillSpec` says. */
    ghost predicate Inserted(pool: BufferPool, fit: Option<(Result<seq<Page>, DbError>, PoolState)>,
      scanned: PoolState, n: nat, files0: map<int, FileState>, tid: TransactionId, row: Row,
      r: Result<seq<Page>, DbError>, s: PoolState)
      reads pool.disk, disk
      requires pool.CatalogOk() && pool.StateOk(scanned)
    {
      if fit.Some? then (r, s) == fit.value && disk.files == files0
      else if unwritable then r == Err(IOError) && s == scanned && disk.files == files0
      else
        disk.files == WriteAt(files0, tableId, Offset(n), EmptyImage(slotsPerPage)) &&
        (r, s) == FillSpec(pool.GetSpec(scanned, tid, PageId(tableId, n), ReadWrite), tid, row)
    }

    /** `insertTuple`: first fit over the existing pages (`FitSpec`), else `Append`; `Inserted`
        gives the result, the pool state and the files. Exactly one page is returned, it
        belongs to this file and it holds the tuple; when no page had room and the file is
        writable, the file has grown by one empty page and no other page changed. */
    method InsertTuple(pool: BufferPool, tid: TransactionId, t: Tuple) returns (r: Result<seq<Page>, DbError>)
      requires pool.Valid() && pool.disk == disk
      modifies pool.cache, pool.lockManager, disk
      ensures pool.Valid()
      ensures r.Ok? ==> |r.value| == 1 && r.value[0].id.tableId == tableId && Some(t.fields) in r.value[0].slots
      ensures var fit := old(FitSpec(pool, pool.State(), tid, t.fields));
        fit.Some? ==> (r, pool.State()) == fit.value && disk.files == old(disk.files)
      ensures Inserted(pool, old(FitSpec(pool, pool.State(), tid, t.fields)), old(ScanEnd(pool, pool.State(), tid)),
        old(NumPages()), old(disk.files), tid, t.fields, r, pool.State())
      ensures old(FitSpec(pool, pool.State(), tid, t.fields)).None? && !unwritable ==> (
        var n := old(NumPages());
        NumPages() == n + 1 && ImageAt(n) == EmptyImage(slotsPerPage) &&
        forall q | q != n :: ImageAt(q) == old(ImageAt(q)))
    {
      ScanSpecOk(pool, pool.State(), tid, 0, NumPages());
      var found := ScanForRoom(pool, tid);
      if found.Err? {
        return Err(found.error);
      }
      if found.value.Some? {
        var q := Filled(found.value.value, t.fields);
        pool.UpdateInPlace(q);
        return Ok([q]);
      }
      r := Append(pool, tid, t.fields);
    }

    /** The end of `insertTuple` when no page has room, once the new page has been fetched:
        a null page raises `NullPointerException`, a full one `DbException`; otherwise the
        row is stored and the page marked dirty by `tid`, in place, and returned alone. */
    ghost function FillSpec(got: (Result<Option<Page>, DbError>, PoolState), tid: TransactionId, row: Row): (Result<seq<Page>, DbError>, PoolState)
    {
      var g := got.0;
      if g.Err? then (Err(g.error), got.1)
      else if g.value.None? then (Err(NullPointer), got.1)
      else if NumEmptySlots(g.value.value.slots) == 0 then (Err(DbException), got.1)
      else
        var q := Filled(g.value.value, row).(dirtier := Some(tid));
        (Ok([q]), PoolState(got.1.locks, InPlace(got.1.view, q)))
    }

    /** The end of `insertTuple` when no page has room: an empty page numbered `numPages()` is
        written straight to the file, which grows by exactly one page, and is then fetched
        through the pool for writing and filled as `FillSpec` says. */
    method Append(pool: BufferPool, tid: TransactionId, row: Row) returns (r: Result<seq<Page>, DbError>)
      requires pool.Valid() && pool.disk == disk
      modifies pool.cache, pool.lockManager, disk
      ensures pool.Valid()
      ensures unwritable ==> r == Err(IOError) && pool.State() == old(pool.State()) && disk.files == old(disk.files)
      ensures !unwritable ==>
        NumPages() == old(NumPages()) + 1 && ImageAt(old(NumPages())) == EmptyImage(slotsPerPage) &&
        (forall q | q != old(NumPages()) :: ImageAt(q) == old(ImageAt(q)))
      ensures !unwritable ==>
        disk.files == WriteAt(old(disk.files), tableId, Offset(old(NumPages())), EmptyImage(slotsPerPage))
      ensures !unwritable ==>
        (r, pool.State()) == FillSpec(pool.GetSpec(old(pool.State()), tid, PageId(tableId, old(NumPages())), ReadWrite), tid, row)
      ensures r.Ok? ==> |r.value| == 1 && r.value[0].id.tableId == tableId && Some(row) in r.value[0].slots
    {
      var n := NumPages();
      var pid := PageId(tableId, n);
      var written := WritePage(FromDisk(pid, EmptyImage(slotsPerPage)));
      if written.Fail? {
        return Err(IOError);
      }
      AppendAddsOnePage(old(Length()));
      var page := pool.GetPage(tid, pid, ReadWrite);
      pool.GetSpecOk(old(pool.State()), tid, pid, ReadWrite);
      if page.Err? {
        return Err(page.error);
      }
      if page.value.None? {
        return Err(NullPointer);
      }
      if NumEmptySlots(page.value.value.slots) == 0 {
        return Err(DbException);
      }
      var q := Filled(page.value.value, row).(dirtier := Some(tid));
      pool.UpdateInPlace(q);
      return Ok([q]);
    }

    /** `deleteTuple` from pool state `s`: only the page named by the tuple's record id is
        fetched (for writing); when its slot is used, the slot is emptied in place and the page
        is returned alone, otherwise nothing is returned. A tuple without a record id raises. */
    ghost function DeleteSpec(pool: BufferPool, s: PoolState, tid: TransactionId, t: Tuple): (Result<seq<Page>, DbError>, PoolState)
      reads pool.disk
      requires pool.CatalogOk() && pool.StateOk(s)
    {
      if t.rid.None? then (Err(NullPointer), s)
      else
        var rid := t.rid.value;
        var got := pool.GetSpec(s, tid, rid.pageId, ReadWrite);
        var g := got.0;
        if g.Err? then (Err(g.error), got.1)
        else if g.value.None? || !IsSlotUsed(g.value.value.slots, rid.tupleNumber) then (Ok([]), got.1)
        else
          var q := g.value.value.(slots := DeleteSlot(g.value.value.slots, rid.tupleNumber));
          (Ok([q]), PoolState(got.1.locks, InPlace(got.1.view, q)))
    }

    /** `deleteTuple`, as `DeleteSpec` says: at most one page is returned, the tuple's own, with
        the tuple's slot empty. */
    method DeleteTuple(pool: BufferPool, tid: TransactionId, t: Tuple) returns (r: Result<seq<Page>, DbError>)
      requires pool.Valid()
      modifies pool.cache, pool.lockManager
      ensures pool.Valid()
      ensures (r, pool.State()) == old(DeleteSpec(pool, pool.State(), tid, t))
      ensures r.Ok? ==> |r.value| <= 1
      ensures r.Ok? && r.value != [] ==>
        r.value[0].id == t.rid.value.pageId && !IsSlotUsed(r.value[0].slots, t.rid.value.tupleNumber)
    {
      if t.rid.None? {
        return Err(NullPointer);
      }
      var rid := t.rid.value;
      var page := pool.GetPage(tid, rid.pageId, ReadWrite);
      if page.Err? {
        return Err(page.error);
      }
      if page.value.None? || !IsSlotUsed(page.value.value.slots, rid.tupleNumber) {
        return Ok([]);
      }
      var q := page.value.value.(slots := DeleteSlot(page.value.value.slots, rid.tupleNumber));
      pool.UpdateInPlace(q);
      return Ok([q]);
    }
  }

  // ---------------------------------------------------------------- buffer pool

  /** The lock mode `getPage` asks for: Shared for read-only access, Exclusive otherwise. */
  function ModeOf(perm: Permissions): (m: int)
    ensures m == SHARE <==> perm == ReadOnly
    ensures m == EXCLUSIVE <==> perm != ReadOnly
  {
    if perm == ReadOnly then SHARE else EXCLUSIVE
  }

  /** Every page of `m` is stored under its own id and belongs to one of `tables`. */
  ghost predicate Resident(m: map<PageId, Page>, tables: set<int>) {
    forall k | k in m :: m[k].id == k && k.tableId in tables
  }

  /** Eviction keeps every remaining page where it was, so pages stay resident. */
  lemma EvictResident(v: CacheView, n: int, tables: set<int>)
    requires ViewValid(v) && Resident(v.entries, tables)
    ensures Resident(EvictSpec(v, n).1.entries, tables)
  {
    EvictKeepsDirty(v, n);
  }

  /** What `getPage` changes: the lock table and the cache. */
  datatype PoolState = PoolState(locks: LockTable, view: CacheView)

  /** `BufferPool`: caches up to `numPages` pages in an LRU cache, locks pages for
      transactions, and never writes a page to disk on eviction (no steal). The catalog and
      the log, global in Java (`Database`), are fixed when the pool is built. */
  class BufferPool {
    const numPages: int
    const cache: LRUCache<PageId, Page>
    const lockManager: LockManager
    const catalog: map<int, HeapFile>
    const disk: Disk
    const logFile: LogFile

    /** Every table's file is registered under its own id and lives on the pool's disk. */
    predicate CatalogOk() {
      forall t | t in catalog :: catalog[t].tableId == t && catalog[t].disk == disk
    }

    /** The cache holds at most `numPages` pages before eviction, and every cached page is
        stored under its own id and belongs to a known table. */
    ghost predicate CacheOk()
      reads cache
    {
      cache.Valid() && cache.cap == numPages && Resident(cache.entries, catalog.Keys)
    }

    ghost predicate Valid()
      reads cache, lockManager
    {
      CacheOk() && lockManager.Valid() && CatalogOk()
    }

    function View(): CacheView
      reads cache
    {
      CacheView(cache.entries, cache.order)
    }

    lemma ViewIsValid()
      requires Valid()
      ensures ViewValid(View())
    {
    }

    constructor (numPages: int, catalog: map<int, HeapFile>, disk: Disk, logFile: LogFile)
      requires forall t | t in catalog :: catalog[t].tableId == t && catalog[t].disk == disk
      ensures Valid() && fresh(cache) && fresh(lockManager)
      ensures this.numPages == numPages && this.catalog == catalog
      ensures this.disk == disk && this.logFile == logFile
      ensures View() == CacheView(map[], []) && lockManager.lockMap == map[]
    {
      this.numPages := numPages;
      this.catalog := catalog;
      this.disk := disk;
      this.logFile := logFile;
      this.cache := new LRUCache(numPages);
      this.lockManager := new LockManager();
    }

    /** The pool state is consistent: the cache is a valid listing of pages stored under their
        own ids and belonging to known tables, and every lock row has one entry. */
    ghost predicate StateOk(s: PoolState) {
      ViewValid(s.view) && Resident(s.view.entries, catalog.Keys) && WellFormed(s.locks)
    }

    function State(): PoolState
      reads cache, lockManager
    {
      PoolState(lockManager.lockMap, View())
    }

    /** `loadPage` on a view, for a page that is not cached: the page is read from its table's
        file; a page read is put at the front and `evictPage` runs; a null page (failed read)
        changes nothing; an unknown table raises. */
    ghost function LoadSpec(v: CacheView, pid: PageId): (r: (Result<Option<Page>, DbError>, CacheView))
      reads disk
      requires CatalogOk() && ViewValid(v) && Resident(v.entries, catalog.Keys)
      ensures ViewValid(r.1) && Resident(r.1.entries, catalog.Keys)
      ensures r.0.Ok? && r.0.value.Some? ==> r.0.value.value.id == pid
    {
      if pid.tableId !in catalog then (Err(NoSuchElement), v)
      else match catalog[pid.tableId].ReadPage(pid)
        case None => (Ok(None), v)
        case Some(p) =>
          PutViewValid(v, pid, p);
          EvictKeepsValid(PutView(v, pid, p), numPages);
          EvictResident(PutView(v, pid, p), numPages, catalog.Keys);
          var ev := EvictSpec(PutView(v, pid, p), numPages);
          (if ev.0.Fail? then Err(DbException) else Ok(Some(p)), ev.1)
    }

    /** `getPage` on the pool state: the lock is requested first (Shared for read-only access,
        Exclusive otherwise); a refused lock raises `TransactionAbortedException` and touches
        nothing; a cached page is returned and becomes most recently used; otherwise the page
        is loaded as `LoadSpec` says. */
    ghost function GetSpec(s: PoolState, tid: TransactionId, pid: PageId, perm: Permissions): (r: (Result<Option<Page>, DbError>, PoolState))
      reads disk
      requires CatalogOk() && StateOk(s)
    {
      AcquirePreservesWellFormed(s.locks, pid, tid, ModeOf(perm));
      var acq := Acquire(s.locks, pid, tid, ModeOf(perm));
      if !acq.0 then (Err(TransactionAborted), s)
      else if pid in s.view.entries then
        var p := s.view.entries[pid];
        PutViewValid(s.view, pid, p);
        (Ok(Some(p)), PoolState(acq.1, PutView(s.view, pid, p)))
      else
        var load := LoadSpec(s.view, pid);
        (load.0, PoolState(acq.1, load.1))
    }

    lemma GetSpecOk(s: PoolState, tid: TransactionId, pid: PageId, perm: Permissions)
      requires CatalogOk() && StateOk(s)
      ensures StateOk(GetSpec(s, tid, pid, perm).1)
      ensures var r := GetSpec(s, tid, pid, perm).0; r.Ok? && r.value.Some? ==> r.value.value.id == pid
    {
      AcquirePreservesWellFormed(s.locks, pid, tid, ModeOf(perm));
      if pid in s.view.entries {
        PutViewValid(s.view, pid, s.view.entries[pid]);
      }
    }

    /** A refused lock raises and leaves the cache and the lock table as they were. */
    lemma GetRefused(s: PoolState, tid: TransactionId, pid: PageId, perm: Permissions)
      requires CatalogOk() && StateOk(s)
      requires !Acquire(s.locks, pid, tid, ModeOf(perm)).0
      ensures GetSpec(s, tid, pid, perm) == (Err(TransactionAborted), s)
    {
    }

    /** Whatever happens to the page, the lock table changes exactly as the lock request says. */
    lemma GetLocks(s: PoolState, tid: TransactionId, pid: PageId, perm: Permissions)
      requires CatalogOk() && StateOk(s)
      ensures GetSpec(s, tid, pid, perm).1.locks == Acquire(s.locks, pid, tid, ModeOf(perm)).1
    {
    }

    /** A granted request for a cached page returns that page, moves it to the front and keeps
        every cached page and the size as they were: nothing is read and nothing evicted. */
    lemma GetHit(s: PoolState, tid: TransactionId, pid: PageId, perm: Permissions)
      requires CatalogOk() && StateOk(s)
      requires Acquire(s.locks, pid, tid, ModeOf(perm)).0 && pid in s.view.entries
      ensures var got := GetSpec(s, tid, pid, perm); var r := got.0; var t := got.1;
        r == Ok(Some(s.view.entries[pid])) && t.view.entries == s.view.entries &&
        |t.view.order| == |s.view.order| && t.view.order[0] == pid
    {
      PutViewValid(s.view, pid, s.view.entries[pid]);
    }

    /** Loading a page that is not cached reads it from its table's file: the page returned
        is the clean page parsed from the file's bytes, unless the eviction that follows
        raises; either way that page is put at the front and evicted from, as
        `PutEvictKeys` and `PutEvictKeepsDirty` describe. */
    lemma LoadMiss(v: CacheView, pid: PageId)
      requires CatalogOk() && ViewValid(v) && Resident(v.entries, catalog.Keys)
      requires pid.tableId in catalog && !catalog[pid.tableId].unreadable && pid.pageNumber >= 0
      ensures var p := FromDisk(pid, catalog[pid.tableId].ImageAt(pid.pageNumber));
        ViewValid(PutView(v, pid, p)) &&
        (LoadSpec(v, pid).0 == Ok(Some(p)) || LoadSpec(v, pid).0 == Err(DbException)) &&
        LoadSpec(v, pid).1 == EvictSpec(PutView(v, pid, p), numPages).1
    {
      var p := FromDisk(pid, catalog[pid.tableId].ImageAt(pid.pageNumber));
      PutViewValid(v, pid, p);
    }

    /** `getPage`. */
    method GetPage(tid: TransactionId, pid: PageId, perm: Permissions) returns (r: Result<Option<Page>, DbError>)
      requires Valid()
      modifies cache, lockManager
      ensures Valid()
      ensures (r, State()) == GetSpec(old(State()), tid, pid, perm)
    {
      var granted := lockManager.TryLock(pid, tid, ModeOf(perm));
      if !granted {
        return Err(TransactionAborted);
      }
      var hit := cache.Get(pid);
      if hit.Some? {
        assert cache.entries == old(cache.entries)[pid := hit.value];
        return Ok(hit);
      }
      r := LoadPage(pid);
    }

    /** `loadPage`, on a miss. */
    method LoadPage(pid: PageId) returns (r: Result<Option<Page>, DbError>)
      requires Valid() && pid !in cache.entries
      modifies cache
      ensures Valid() && (r, View()) == LoadSpec(old(View()), pid)
    {
      if pid.tableId !in catalog {
        return Err(NoSuchElement);
      }
      var page := catalog[pid.tableId].ReadPage(pid);
      if page.Some? {
        ghost var v := View();
        PutViewValid(v, pid, page.value);
        cache.Put(pid, page.value);
        assert View() == PutView(v, pid, page.value);
        if cache.GetSize() >= numPages {
          var out := EvictPage();
          if out.Fail? {
            return Err(DbException);
          }
        }
      }
      return Ok(page);
    }

    /** `evictPage`: at most `numPages` times, pop the least recently used page; a dirty one is
        put back at the front, a clean one stays out and ends the eviction. All `numPages`
        pops meeting dirty pages raise `DbException`. */
    method EvictPage() returns (out: Outcome<DbError>)
      requires CacheOk()
      modifies cache
      ensures CacheOk()
      ensures (out, View()) == EvictSpec(old(View()), numPages)
    {
      ghost var v := View();
      var i := 0;
      while i < numPages
        invariant CacheOk() && 0 <= i && View() == RotatedView(v, i)
        invariant i > 0 ==> i <= numPages <= |v.order| && |v.entries| >= numPages && i <= DirtyRun(v, numPages, 0)
        decreases numPages - i
      {
        var page := EvictRound(v, i);
        if page.None? {
          return Pass;
        }
        i := i + 1;
        if page.value.dirtier.None? {
          return Pass;
        }
      }
      if i == numPages {
        if i > 0 {
          EvictAllDirty(v, numPages);
        }
        return Fail(DbException);
      }
      return Pass;
    }

    /** The body of `evictPage`'s loop, after `i` dirty pages were put back: below capacity
        nothing is popped; otherwise the least recently used page is popped and, when dirty,
        put back at the front. */
    method EvictRound(ghost v: CacheView, i: nat) returns (page: Option<Page>)
      requires CacheOk() && ViewValid(v) && View() == RotatedView(v, i) && i < numPages
      requires i > 0 ==> numPages <= |v.order| && |v.entries| >= numPages && i <= DirtyRun(v, numPages, 0)
      modifies cache
      ensures CacheOk()
      ensures page.None? ==> (Pass, View()) == EvictSpec(v, numPages)
      ensures page.Some? && page.value.dirtier.None? ==> (Pass, View()) == EvictSpec(v, numPages)
      ensures page.Some? && page.value.dirtier.Some? ==>
        View() == RotatedView(v, i + 1) && numPages <= |v.order| && |v.entries| >= numPages &&
        i + 1 <= DirtyRun(v, numPages, 0)
    {
      page := cache.EvictOldest();
      if page.None? {
        assert i == 0 && View() == v;
        return;
      }
      ghost var k := v.order[|v.order| - 1 - i];
      EvictPopped(v, i);
      assert page.value == v.entries[k] && page.value.id == k;
      if page.value.dirtier.Some? {
        cache.Put(page.value.id, page.value);
        EvictDirtyStep(v, numPages, i);
        EvictDirtyRound(v, i);
      } else {
        EvictCleanStep(v, numPages, i);
      }
    }

    /** A page object the cache holds is changed in place by whoever fetched it. */
    method UpdateInPlace(p: Page)
      requires Valid()
      modifies cache
      ensures Valid() && View() == InPlace(old(View()), p)
    {
      if p.id in cache.entries {
        cache.ReplaceValue(p.id, p);
      }
    }

    /** The loop of `insertTuple` and `deleteTuple` over the pages the file reports: each is
        marked dirty by `tid`, put in the cache and followed by `evictPage`, whose exception
        ends the loop. */
    method StorePages(tid: TransactionId, pages: seq<Page>) returns (out: Outcome<DbError>)
      requires Valid() && forall p | p in pages :: p.id.tableId in catalog
      modifies cache
      ensures Valid()
      ensures (out, View()) == StoreSpec(old(View()), tid, pages, numPages)
    {
      ghost var v := View();
      out := Pass;
      for i := 0 to |pages|
        invariant Valid() && out == Pass && (out, View()) == StoreSpec(v, tid, pages[..i], numPages)
      {
        StoreStep(v, tid, pages, i, numPages);
        var p := pages[i].(dirtier := Some(tid));
        assert pages[i] in pages;
        ghost var w := View();
        cache.Put(p.id, p);
        assert View() == PutView(w, p.id, p);
        out := EvictPage();
        if out.Fail? {
          StoreFailSticks(v, tid, pages, i + 1, numPages);
          return;
        }
      }
      assert pages[..|pages|] == pages;
    }

    /** `insertTuple`: the table's file inserts the tuple (first fit, or a new page), giving
        `file` and leaving the pool in state `mid`, as `HeapFile.Inserted` says; the page it
        reports, which holds the tuple, is then cached dirty by `tid` and followed by
        `evictPage` (`StoreSpec`), even when that eviction raises. An unknown table raises and
        changes nothing. The disk changes only through the file, and the locks only through
        its fetches. */
    method InsertTuple(tid: TransactionId, tableId: int, t: Tuple)
      returns (out: Outcome<DbError>, ghost pages: seq<Page>, ghost file: Result<seq<Page>, DbError>, ghost mid: PoolState)
      requires Valid()
      modifies cache, lockManager, disk
      ensures Valid() && StateOk(mid)
      ensures tableId !in catalog ==>
        out == Fail(NoSuchElement) && State() == old(State()) && disk.files == old(disk.files)
      ensures tableId !in catalog ==> file == Err(NoSuchElement) && mid == old(State())
      ensures tableId in catalog ==>
        var h := catalog[tableId];
        h.Inserted(this, old(h.FitSpec(this, State(), tid, t.fields)), old(h.ScanEnd(this, State(), tid)),
          old(h.NumPages()), old(disk.files), tid, t.fields, file, mid)
      ensures file.Err? ==> out == Fail(file.error) && State() == mid && pages == []
      ensures file.Ok? ==>
        pages == file.value && (out, View()) == StoreSpec(mid.view, tid, pages, numPages) &&
        lockManager.lockMap == mid.locks
      ensures |pages| <= 1 && (out.Pass? ==> |pages| == 1)
      ensures pages != [] ==>
        pages[0].id.tableId == tableId && Some(t.fields) in pages[0].slots &&
        pages[0].id in cache.entries && cache.entries[pages[0].id] == pages[0].(dirtier := Some(tid))
    {
      pages, mid := [], State();
      if tableId !in catalog {
        file := Err(NoSuchElement);
        return Fail(NoSuchElement), pages, file, mid;
      }
      var r := catalog[tableId].InsertTuple(this, tid, t);
      file, mid := r, State();
      if r.Err? {
        return Fail(r.error), pages, file, mid;
      }
      pages := r.value;
      StoreOneKeeps(View(), tid, pages[0], numPages);
      assert pages == [pages[0]];
      out := StorePages(tid, r.value);
    }

    /** `deleteTuple`: the file of the tuple's table empties the tuple's slot, giving `file`
        and leaving the pool in state `mid`, as `HeapFile.DeleteSpec` says; the page it
        reports, if any, is then cached dirty by `tid` and followed by `evictPage`
        (`StoreSpec`). When it reports none, the pool stays as the file left it. A tuple
        without a record id or of an unknown table raises and changes nothing. The disk is
        untouched. */
    method DeleteTuple(tid: TransactionId, t: Tuple)
      returns (out: Outcome<DbError>, ghost pages: seq<Page>, ghost file: Result<seq<Page>, DbError>, ghost mid: PoolState)
      requires Valid()
      modifies cache, lockManager
      ensures Valid() && StateOk(mid)
      ensures t.rid.None? ==> out == Fail(NullPointer) && State() == old(State())
      ensures t.rid.Some? && t.rid.value.pageId.tableId !in catalog ==>
        out == Fail(NoSuchElement) && State() == old(State())
      ensures t.rid.Some? && t.rid.value.pageId.tableId in catalog ==>
        (file, mid) == old(catalog[t.rid.value.pageId.tableId].DeleteSpec(this, State(), tid, t))
      ensures file.Err? ==> out == Fail(file.error) && State() == mid && pages == []
      ensures file.Ok? ==>
        pages == file.value && (out, View()) == StoreSpec(mid.view, tid, pages, numPages) &&
        lockManager.lockMap == mid.locks
      ensures file == Ok([]) ==> out == Pass && State() == mid
      ensures |pages| <= 1
      ensures pages != [] ==>
        t.rid.Some? && pages[0].id == t.rid.value.pageId && !IsSlotUsed(pages[0].slots, t.rid.value.tupleNumber) &&
        pages[0].id in cache.entries && cache.entries[pages[0].id] == pages[0].(dirtier := Some(tid))
    {
      pages, mid := [], State();
      if t.rid.None? {
        file := Err(NullPointer);
        return Fail(NullPointer), pages, file, mid;
      }
      var tableId := t.rid.value.pageId.tableId;
      if tableId !in catalog {
        file := Err(NoSuchElement);
        return Fail(NoSuchElement), pages, file, mid;
      }
      var r := catalog[tableId].DeleteTuple(this, tid, t);
      file, mid := r, State();
      if r.Err? {
        return Fail(r.error), pages, file, mid;
      }
      pages := r.value;
      if pages != [] {
        StoreOneKeeps(View(), tid, pages[0], numPages);
        assert pages == [pages[0]];
      }
      out := StorePages(tid, r.value);
    }

    /** The image page `k` has in `files`, read through its table's file. */
    function ImageIn(files: map<int, FileState>, k: PageId): Image
      requires k.tableId in catalog
    {
      BlockAt(FileIn(files, k.tableId), k.pageNumber, catalog[k.tableId].slotsPerPage)
    }

    /** Writing page `w` changes the image of page `w` and of no other page. */
    lemma ImageAfterWrite(files: map<int, FileState>, w: PageId, img: Image, k: PageId)
      requires w.tableId in catalog && k.tableId in catalog
      ensures ImageIn(WriteAt(files, w.tableId, Offset(w.pageNumber), img), k) ==
        if k == w then img else ImageIn(files, k)
    {
      OffsetsDisjoint(k.pageNumber, w.pageNumber);
    }

    /** `writePage` succeeds for page `k`: its table's medium accepts writes and its offset is
        not negative. */
    predicate Writable(k: PageId)
      requires k.tableId in catalog
    {
      !catalog[k.tableId].unwritable && k.pageNumber >= 0
    }

    /** `flushPage(Page)` on the state as values, for a page of a known table: the log
        records of a dirty page are written, then the page is written to its file and marked
        clean in place; a failing write raises `IOException` after the logging. */
    function FlushSpec(s: FlushState, p: Page): (r: FlushState)
      requires p.id.tableId in catalog
      ensures r.view.order == s.view.order && r.view.entries.Keys == s.view.entries.Keys
    {
      var log := s.log + FlushRecords(p);
      if !Writable(p.id) then FlushState(Fail(IOError), s.view, s.files, log)
      else FlushState(Pass, InPlace(s.view, p.(dirtier := None)), WriteAt(s.files, p.id.tableId, Offset(p.id.pageNumber), p.slots), log)
    }

    /** One visit of a sweep to page `p` of its snapshot. */
    function VisitSpec(s: FlushState, p: Page, sweep: Sweep): (r: FlushState)
      requires p.id.tableId in catalog
      ensures r.view.order == s.view.order && r.view.entries.Keys == s.view.entries.Keys
    {
      if sweep.None? then FlushSpec(s, p)
      else
        var q := Refreshed(p);
        var s1 := s.(view := InPlace(s.view, q));
        if q.dirtier == sweep then FlushSpec(s1, q) else s1
    }

    /** A sweep over the keys of `done`, from state `s0`, with `m` the snapshot of the cache:
        the pages are visited in order and the first exception ends the sweep. */
    function SweepSpec(m: map<PageId, Page>, done: seq<PageId>, s0: FlushState, sweep: Sweep): FlushState
    {
      if done == [] then s0
      else
        var r := SweepSpec(m, done[..|done| - 1], s0, sweep);
        var k := done[|done| - 1];
        if r.out.Fail? || k !in m || m[k].id.tableId !in catalog then r
        else VisitSpec(r, m[k], sweep)
    }

    /** One more key of a sweep that has not raised is one more visit. */
    lemma SweepStep(m: map<PageId, Page>, o: seq<PageId>, i: nat, s0: FlushState, sweep: Sweep)
      requires i < |o| && o[i] in m && m[o[i]].id.tableId in catalog
      requires SweepSpec(m, o[..i], s0, sweep).out.Pass?
      ensures SweepSpec(m, o[..i + 1], s0, sweep) == VisitSpec(SweepSpec(m, o[..i], s0, sweep), m[o[i]], sweep)
    {
      assert o[..i + 1][..i] == o[..i];
    }

    /** A visit that does not raise leaves the visited page as the sweep leaves it and every
        other page as it was. */
    lemma VisitEntries(s: FlushState, p: Page, sweep: Sweep)
      requires p.id.tableId in catalog && p.id in s.view.entries
      ensures VisitSpec(s, p, sweep).out.Pass? ==>
        VisitSpec(s, p, sweep).view.entries == s.view.entries[p.id := Swept(p, sweep)]
    {
    }

    /** A visit that does not raise writes the visited page to its file when the sweep
        selects it, and writes nothing otherwise. */
    lemma VisitFiles(s: FlushState, p: Page, sweep: Sweep)
      requires p.id.tableId in catalog
      ensures VisitSpec(s, p, sweep).out.Pass? ==>
        VisitSpec(s, p, sweep).files ==
          if sweep.None? || p.dirtier == sweep then WriteAt(s.files, p.id.tableId, Offset(p.id.pageNumber), p.slots)
          else s.files
    {
    }

    /** Once a sweep has raised, the rest of the keys are not visited. */
    lemma {:induction false} SweepFailSticks(m: map<PageId, Page>, done: seq<PageId>, s0: FlushState, sweep: Sweep, j: nat)
      requires j <= |done| && SweepSpec(m, done[..j], s0, sweep).out.Fail?
      ensures SweepSpec(m, done, s0, sweep) == SweepSpec(m, done[..j], s0, sweep)
      decreases |done| - j
    {
      if j < |done| {
        assert done[..|done| - 1][..j] == done[..j];
        SweepFailSticks(m, done[..|done| - 1], s0, sweep, j);
      } else {
        assert done[..j] == done;
      }
    }

    /** A sweep keeps the cached keys and their order, raises only `IOException`, and
        succeeds exactly when every page it has to flush can be written. */
    lemma {:induction false} SweepOutcome(m: map<PageId, Page>, done: seq<PageId>, s0: FlushState, sweep: Sweep)
      requires Resident(m, catalog.Keys) && s0.out.Pass?
      ensures var r := SweepSpec(m, done, s0, sweep);
        r.view.order == s0.view.order && r.view.entries.Keys == s0.view.entries.Keys &&
        (r.out.Fail? ==> r.out == Fail(IOError)) &&
        (r.out.Pass? <==> forall k | k in done && Selected(m, k, sweep) :: Writable(k))
    {
      if done != [] {
        var front := done[..|done| - 1];
        var k := done[|done| - 1];
        SweepOutcome(m, front, s0, sweep);
        assert done == front + [k];
      }
    }

    /** After a successful sweep every visited page is as the sweep leaves it (clean, or
        committed with a fresh before-image), and every other page is as it was. */
    lemma {:induction false} SweepEntries(m: map<PageId, Page>, done: seq<PageId>, s0: FlushState, sweep: Sweep)
      requires Resident(m, catalog.Keys) && s0.out.Pass? && s0.view.entries == m
      ensures var r := SweepSpec(m, done, s0, sweep);
        r.out.Pass? ==> forall k | k in m :: k in r.view.entries && r.view.entries[k] == if k in done then Swept(m[k], sweep) else m[k]
    {
      if done != [] {
        var front := done[..|done| - 1];
        var k := done[|done| - 1];
        SweepEntries(m, front, s0, sweep);
        SweepOutcome(m, front, s0, sweep);
        assert done == front + [k];
        if k in m {
          VisitEntries(SweepSpec(m, front, s0, sweep), m[k], sweep);
        }
      }
    }

    /** A successful sweep writes exactly the log records `SweepLog` lists. */
    lemma {:induction false} SweepLogged(m: map<PageId, Page>, done: seq<PageId>, s0: FlushState, sweep: Sweep)
      requires Resident(m, catalog.Keys) && s0.out.Pass?
      ensures var r := SweepSpec(m, done, s0, sweep);
        r.out.Pass? ==> r.log == s0.log + SweepLog(m, done, sweep)
    {
      if done != [] {
        var front := done[..|done| - 1];
        SweepLogged(m, front, s0, sweep);
      }
    }

    /** After a successful sweep each page it flushed has its cached contents on disk, and
        every other page of every table reads as before. */
    lemma {:induction false} SweepFiles(m: map<PageId, Page>, done: seq<PageId>, s0: FlushState, sweep: Sweep, k: PageId)
      requires Resident(m, catalog.Keys) && s0.out.Pass? && k.tableId in catalog
      ensures var r := SweepSpec(m, done, s0, sweep);
        r.out.Pass? ==> ImageIn(r.files, k) == if k in done && Selected(m, k, sweep) then m[k].slots else ImageIn(s0.files, k)
    {
      if done != [] {
        var front := done[..|done| - 1];
        var w := done[|done| - 1];
        SweepFiles(m, front, s0, sweep, k);
        assert done == front + [w];
        if w in m {
          var r := SweepSpec(m, front, s0, sweep);
          SweepOutcome(m, front, s0, sweep);
          VisitFiles(r, m[w], sweep);
          ImageAfterWrite(r.files, w, m[w].slots, k);
        }
      }
    }

    /** `flushPage(Page)`: a null page is ignored; otherwise a dirty page's update is logged
        and the log forced, then the page is written to its table's file and marked clean in
        place (`FlushSpec`). A page of an unknown table raises after the logging. */
    method FlushPage(page: Option<Page>) returns (out: Outcome<DbError>)
      requires Valid()
      modifies cache, disk, logFile
      ensures Valid()
      ensures page.None? ==>
        out == Pass && View() == old(View()) && disk.files == old(disk.files) && logFile.records == old(logFile.records)
      ensures page.Some? && page.value.id.tableId !in catalog ==>
        out == Fail(NoSuchElement) && View() == old(View()) && disk.files == old(disk.files) &&
        logFile.records == old(logFile.records) + FlushRecords(page.value)
      ensures page.Some? && page.value.id.tableId in catalog ==>
        FlushState(out, View(), disk.files, logFile.records) ==
        FlushSpec(FlushState(Pass, old(View()), old(disk.files), old(logFile.records)), page.value)
    {
      if page.None? {
        return Pass;
      }
      var p := page.value;
      if p.dirtier.Some? {
        logFile.LogWrite(p.dirtier.value, p.beforeImage, p.slots);
        logFile.Force();
      }
      if p.id.tableId !in catalog {
        return Fail(NoSuchElement);
      }
      out := catalog[p.id.tableId].WritePage(p);
      if out.Pass? {
        UpdateInPlace(p.(dirtier := None));
      }
    }

    /** `flushPage(PageId)`: the page is looked up with `get`, which makes a cached page the
        most recently used, and flushed; a page that is not cached is ignored. */
    method FlushPageById(pid: PageId) returns (out: Outcome<DbError>)
      requires Valid()
      modifies cache, disk, logFile
      ensures Valid()
      ensures pid !in old(cache.entries) ==>
        out == Pass && View() == old(View()) && disk.files == old(disk.files) && logFile.records == old(logFile.records)
      ensures pid in old(cache.entries) ==>
        var p := old(cache.entries)[pid];
        p.id.tableId in catalog &&
        FlushState(out, View(), disk.files, logFile.records) ==
        FlushSpec(FlushState(Pass, PutView(old(View()), pid, p), old(disk.files), old(logFile.records)), p)
    {
      ghost var v := View();
      var page := cache.Get(pid);
      if pid in v.entries {
        assert page == Some(v.entries[pid]) && View() == PutView(v, pid, page.value);
      }
      out := FlushPage(page);
    }

    /** One step of `flushPages(tid)` on the cached page object `p`: its before-image is
        refreshed in place and, when `tid` dirtied it, it is flushed. */
    method CommitVisit(tid: TransactionId, p: Page) returns (out: Outcome<DbError>)
      requires Valid() && p.id.tableId in catalog
      modifies cache, disk, logFile
      ensures Valid()
      ensures FlushState(out, View(), disk.files, logFile.records) ==
        VisitSpec(FlushState(Pass, old(View()), old(disk.files), old(logFile.records)), p, Some(tid))
    {
      var q := Refreshed(p);
      UpdateInPlace(q);
      if q.dirtier != Some(tid) {
        return Pass;
      }
      out := FlushPage(Some(q));
    }

    /** `flushPages(tid)`: the loop over a snapshot of the cached pages, in the cache's order;
        the first exception ends it. Its effect on the cache, the files and the log is the
        sweep `SweepSpec` over that order, whose lemmas say what it is. */
    method FlushPages(tid: TransactionId) returns (out: Outcome<DbError>)
      requires Valid()
      modifies cache, disk, logFile
      ensures Valid()
      ensures FlushState(out, View(), disk.files, logFile.records) ==
        SweepSpec(old(cache.entries), old(cache.order), FlushState(Pass, old(View()), old(disk.files), old(logFile.records)), Some(tid))
    {
      ghost var m, o := cache.entries, cache.order;
      ghost var s0 := FlushState(Pass, View(), disk.files, logFile.records);
      var vals := cache.GetValueIterator();
      out := Pass;
      for i := 0 to |vals|
        invariant Valid() && cache.order == o && out == Pass
        invariant FlushState(Pass, View(), disk.files, logFile.records) == SweepSpec(m, o[..i], s0, Some(tid))
      {
        assert Mapped(m, o, i);
        SweepStep(m, o, i, s0, Some(tid));
        out := CommitVisit(tid, vals[i]);
        if out.Fail? {
          SweepFailSticks(m, o, s0, Some(tid), i + 1);
          return;
        }
      }
      assert o[..|o|] == o;
    }

    /** `flushAllPages`: every cached page is flushed, in the cache's order, until the first
        exception; the effect is the sweep `SweepSpec` with no transaction. */
    method FlushAllPages() returns (out: Outcome<DbError>)
      requires Valid()
      modifies cache, disk, logFile
      ensures Valid()
      ensures FlushState(out, View(), disk.files, logFile.records) ==
        SweepSpec(old(cache.entries), old(cache.order), FlushState(Pass, old(View()), old(disk.files), old(logFile.records)), None)
    {
      ghost var m, o := cache.entries, cache.order;
      ghost var s0 := FlushState(Pass, View(), disk.files, logFile.records);
      var vals := cache.GetValueIterator();
      out := Pass;
      for i := 0 to |vals|
        invariant Valid() && cache.order == o && out == Pass
        invariant FlushState(Pass, View(), disk.files, logFile.records) == SweepSpec(m, o[..i], s0, None)
      {
        assert Mapped(m, o, i);
        SweepStep(m, o, i, s0, None);
        out := FlushPage(Some(vals[i]));
        if out.Fail? {
          SweepFailSticks(m, o, s0, None, i + 1);
          return;
        }
      }
      assert o[..|o|] == o;
    }

    /** What a commit does when it succeeds, over the whole cache: it succeeds exactly when
        every page `tid` dirtied can be written; then each of those pages has its contents on
        disk, every other page of every table reads as before, every cached page is kept
        with a fresh before-image and the pages of `tid` are clean, and the log holds, in
        order, an update and a force for each page `tid` dirtied. */
    lemma CommitEffect(m: map<PageId, Page>, o: seq<PageId>, files: map<int, FileState>, log: seq<LogRecord>, tid: TransactionId, k: PageId)
      requires Listed(m, o) && Resident(m, catalog.Keys)
      ensures var r := SweepSpec(m, o, FlushState(Pass, CacheView(m, o), files, log), Some(tid));
        (r.out.Pass? <==> forall j | DirtyBy(m, j, tid) :: Writable(j)) &&
        (r.out.Fail? ==> r.out == Fail(IOError) && r.view.order == o && r.view.entries.Keys == m.Keys)
      ensures var r := SweepSpec(m, o, FlushState(Pass, CacheView(m, o), files, log), Some(tid));
        r.out.Pass? ==>
          r.view.order == o && r.log == log + CommitLog(m, o, tid) &&
          (k in m ==> k in r.view.entries && r.view.entries[k] == Committed(m[k], tid)) &&
          (k.tableId in catalog ==> ImageIn(r.files, k) == if DirtyBy(m, k, tid) then m[k].slots else ImageIn(files, k))
    {
      var s0 := FlushState(Pass, CacheView(m, o), files, log);
      SweepOutcome(m, o, s0, Some(tid));
      SweepEntries(m, o, s0, Some(tid));
      SweepLogged(m, o, s0, Some(tid));
      ListedIn(m, o, k);
      forall j | DirtyBy(m, j, tid) ensures j in o {
        ListedIn(m, o, j);
      }
      if k.tableId in catalog {
        SweepFiles(m, o, s0, Some(tid), k);
      }
    }

    /** What `flushAllPages` does when it succeeds: it succeeds exactly when every cached page
        can be written; then every cached page is on disk and clean, every page that is not
        cached reads as before, and only the dirty pages were logged. */
    lemma FlushAllEffect(m: map<PageId, Page>, o: seq<PageId>, files: map<int, FileState>, log: seq<LogRecord>, k: PageId)
      requires Listed(m, o) && Resident(m, catalog.Keys)
      ensures var r := SweepSpec(m, o, FlushState(Pass, CacheView(m, o), files, log), None);
        (r.out.Pass? <==> forall j | j in m :: Writable(j)) &&
        (r.out.Fail? ==> r.out == Fail(IOError) && r.view.order == o && r.view.entries.Keys == m.Keys)
      ensures var r := SweepSpec(m, o, FlushState(Pass, CacheView(m, o), files, log), None);
        r.out.Pass? ==>
          r.view.order == o && r.log == log + FlushLog(m, o) &&
          (k in m ==> k in r.view.entries && r.view.entries[k] == m[k].(dirtier := None)) &&
          (k.tableId in catalog ==> ImageIn(r.files, k) == if k in m then m[k].slots else ImageIn(files, k))
    {
      var s0 := FlushState(Pass, CacheView(m, o), files, log);
      SweepOutcome(m, o, s0, None);
      SweepEntries(m, o, s0, None);
      SweepLogged(m, o, s0, None);
      ListedIn(m, o, k);
      forall j | j in m ensures j in o {
        ListedIn(m, o, j);
      }
      if k.tableId in catalog {
        SweepFiles(m, o, s0, None, k);
      }
    }

    /** `discardPage`: the page leaves the cache without being written; every other page keeps
        its place. */
    method DiscardPage(pid: PageId)
      requires Valid()
      modifies cache
      ensures Valid()
      ensures View() == CacheView(old(cache.entries) - {pid}, RemoveKey(old(cache.order), pid))
    {
      cache.Remove(pid);
    }

    /** `discardPageByTxn(tid)`: the loop over a snapshot of the cached pages drops every page
        `tid` dirtied; the other pages keep their values and their order. Nothing is written. */
    method DiscardPageByTxn(tid: TransactionId)
      requires Valid()
      modifies cache
      ensures Valid()
      ensures var gone := DirtySet(old(cache.entries), old(cache.order), tid);
        View() == CacheView(old(cache.entries) - gone, Filter(old(cache.order), gone))
    {
      ghost var m, o := cache.entries, cache.order;
      ghost var gone: set<PageId> := {};
      var vals := cache.GetValueIterator();
      FilterNothing(o);
      assert m - gone == m;
      for i := 0 to |vals|
        invariant Valid() && gone == DirtySet(m, o[..i], tid)
        invariant View() == CacheView(m - gone, Filter(o, gone))
      {
        assert Mapped(m, o, i);
        var p := vals[i];
        assert p == m[o[i]] && p.id == o[i];
        DiscardStep(m, o, i, tid);
        if p.dirtier == Some(tid) {
          DiscardPage(p.id);
        }
        gone := DirtySet(m, o[..i + 1], tid);
      }
      assert o[..|o|] == o;
    }

    /** An abort keeps exactly the cached pages `tid` did not dirty, unchanged. */
    lemma AbortEffect(m: map<PageId, Page>, o: seq<PageId>, tid: TransactionId, k: PageId)
      requires Listed(m, o)
      ensures var e := m - DirtySet(m, o, tid);
        (k in e <==> k in m && !DirtyBy(m, k, tid)) && (k in e ==> e[k] == m[k])
    {
      ListedIn(m, o, k);
    }

    /** `transactionComplete(tid, commit)`: a commit runs `flushPages(tid)`, an abort
        `discardPageByTxn(tid)`; then every lock of `tid` is released. An exception, which only
        the commit can raise, is caught and printed, so the release is skipped. */
    method TransactionComplete(tid: TransactionId, commit: bool)
      requires Valid()
      modifies cache, disk, logFile, lockManager
      ensures Valid()
      ensures commit ==>
        var r := SweepSpec(old(cache.entries), old(cache.order), FlushState(Pass, old(View()), old(disk.files), old(logFile.records)), Some(tid));
        View() == r.view && disk.files == r.files && logFile.records == r.log &&
        lockManager.lockMap == if r.out.Pass? then ReleaseAll(old(lockManager.lockMap), tid) else old(lockManager.lockMap)
      ensures !commit ==>
        var gone := DirtySet(old(cache.entries), old(cache.order), tid);
        View() == CacheView(old(cache.entries) - gone, Filter(old(cache.order), gone)) &&
        disk.files == old(disk.files) && logFile.records == old(logFile.records) &&
        lockManager.lockMap == ReleaseAll(old(lockManager.lockMap), tid)
    {
      if commit {
        var out := FlushPages(tid);
        if out.Fail? {
          return;
        }
      } else {
        DiscardPageByTxn(tid);
      }
      lockManager.ReleaseLockByTxn(tid);
    }

    /** `transactionComplete(tid)` commits. */
    method TransactionCommit(tid: TransactionId)
      requires Valid()
      modifies cache, disk, logFile, lockManager
      ensures Valid()
      ensures var r := SweepSpec(old(cache.entries), old(cache.order), FlushState(Pass, old(View()), old(disk.files), old(logFile.records)), Some(tid));
        View() == r.view && disk.files == r.files && logFile.records == r.log &&
        lockManager.lockMap == if r.out.Pass? then ReleaseAll(old(lockManager.lockMap), tid) else old(lockManager.lockMap)
    {
      TransactionComplete(tid, true);
    }

    /** `holdsLock(tid, p)`: `tid` has an entry in the row of `p`. */
    function HoldsLock(tid: TransactionId, p: PageId): (r: bool)
      reads lockManager
      ensures r ==> p in lockManager.lockMap && tid in lockManager.lockMap[p]
      ensures !r ==> HoldOf(lockManager.lockMap, p, tid) == -1
    {
      lockManager.IsHold(p, tid) != -1
    }

    /** `unsafeReleasePage(tid, pid)`: the lock of `tid` on `pid` is dropped whatever state the
        transaction is in; afterwards `tid` holds no lock on `pid`, and every other entry of
        the table is as it was. */
    method UnsafeReleasePage(tid: TransactionId, pid: PageId)
      requires Valid()
      modifies lockManager
      ensures Valid() && View() == old(View())
      ensures lockManager.lockMap == Release(old(lockManager.lockMap), pid, tid).1
      ensures !HoldsLock(tid, pid)
      ensures forall p, u | p != pid || u != tid :: HoldOf(lockManager.lockMap, p, u) == HoldOf(old(lockManager.lockMap), p, u)
    {
      var _ := lockManager.ReleaseLock(pid, tid);
      forall p, u | p != pid || u != tid
        ensures HoldOf(lockManager.lockMap, p, u) == HoldOf(old(lockManager.lockMap), p, u)
      {
        ReleaseSpec(old(lockManager.lockMap), pid, tid, p, u);
      }
      ReleaseSpec(old(lockManager.lockMap), pid, tid, pid, tid);
    }
  }
}
