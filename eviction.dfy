/** The buffer pool's no-steal eviction rule (`BufferPool.evictPage`), stated on the
    cache's contents as a value. */
module Eviction {
  import opened Wrappers
  import opened DbTypes
  import opened Pages
  import opened LruCache
  import opened Sets

  /** The page cache as a value: its entries and its recency order, most recently used first. */
  datatype CacheView = CacheView(entries: map<PageId, Page>, order: seq<PageId>)

  /** The representation invariant of `LRUCache`, on a view. */
  ghost predicate ViewValid(v: CacheView) {
    Listed(v.entries, v.order)
  }

  /** A cached page with a dirty marker (Java's `isDirty() != null`). */
  predicate IsDirty(m: map<PageId, Page>, k: PageId) {
    k in m && m[k].dirtier.Some?
  }

  /** The list after its last key has been popped and put back at the front, `i` times. */
  function Rotated(o: seq<PageId>, i: nat): (r: seq<PageId>)
    ensures |r| == |o|
  {
    if i == 0 || o == [] then o
    else
      var q := Rotated(o, i - 1);
      [q[|q| - 1]] + q[..|q| - 1]
  }

  /** Rotating `i <= |o|` times moves the last `i` keys, in their order, to the front. */
  lemma {:induction false} RotatedSlices(o: seq<PageId>, i: nat)
    requires i <= |o|
    ensures Rotated(o, i) == o[|o| - i..] + o[..|o| - i]
  {
    if i > 0 {
      var s := |o|;
      RotatedSlices(o, i - 1);
      var q := Rotated(o, i - 1);
      assert q[s - 1] == o[s - i];
      assert q[..s - 1] == o[s - i + 1..] + o[..s - i];
      assert [o[s - i]] + o[s - i + 1..] == o[s - i..];
    }
  }

  /** How many dirty pages eviction meets, popping from the least recently used end, before
      it meets a clean one or has popped `n` pages; `j` pages are already counted. */
  function DirtyRun(v: CacheView, n: nat, j: nat): (d: nat)
    requires j <= n <= |v.order|
    ensures j <= d <= n
    decreases n - j
  {
    if j < n && IsDirty(v.entries, v.order[|v.order| - 1 - j]) then DirtyRun(v, n, j + 1) else j
  }

  /** `evictPage` on a view, with `n` the pool's `numPages` (the cache's capacity). Below
      capacity nothing happens. Otherwise the `d` dirty pages met at the tail are rotated to
      the front and the clean page after them is dropped; when all `n` popped pages are
      dirty, they are all rotated and `DbException` is raised. A non-positive `n` runs no
      iteration and raises only when `n` is 0. */
  ghost function EvictSpec(v: CacheView, n: int): (r: (Outcome<DbError>, CacheView))
    requires ViewValid(v)
  {
    if n <= 0 then (if n == 0 then Fail(DbException) else Pass, v)
    else if |v.entries| < n then (Pass, v)
    else
      var s := |v.order|;
      var d := DirtyRun(v, n, 0);
      if d < n then (Pass, CacheView(v.entries - {v.order[s - 1 - d]}, v.order[s - d..] + v.order[..s - 1 - d]))
      else (Fail(DbException), CacheView(v.entries, Rotated(v.order, n)))
  }

  /** `DirtyRun` counted from `j` is the length of the dirty run at the tail: every page it
      passes is dirty, and when it stops before `n` it stops at a clean page. */
  lemma {:induction false} DirtyRunFrom(v: CacheView, n: nat, j: nat)
    requires j <= n <= |v.order|
    ensures var d := DirtyRun(v, n, j); var s := |v.order|;
      (forall p | s - d <= p < s - j :: IsDirty(v.entries, v.order[p])) &&
      (d < n ==> !IsDirty(v.entries, v.order[s - 1 - d]))
    decreases n - j
  {
    if j < n && IsDirty(v.entries, v.order[|v.order| - 1 - j]) {
      DirtyRunFrom(v, n, j + 1);
    }
  }

  /** The whole dirty run at the tail, from the least recently used page. */
  lemma DirtyRunSpec(v: CacheView, n: nat)
    requires n <= |v.order|
    ensures var d := DirtyRun(v, n, 0); var s := |v.order|;
      (forall p | s - d <= p < s :: IsDirty(v.entries, v.order[p])) &&
      (d < n ==> !IsDirty(v.entries, v.order[s - 1 - d]))
  {
    DirtyRunFrom(v, n, 0);
  }

  /** Moving the last `i` keys of a listing to the front, or dropping one key, gives a
      listing of the same map, less the dropped key. */
  lemma RotatedListed(m: map<PageId, Page>, o: seq<PageId>, i: nat)
    requires Listed(m, o) && i <= |o|
    ensures Listed(m, Rotated(o, i))
  {
    var s := |o|;
    var r := Rotated(o, i);
    forall a, b | 0 <= a < b < s ensures Apart(r, a, b) {
      RotatedAt(o, i, a);
      RotatedAt(o, i, b);
      var a' := if a < i then s - i + a else a - i;
      var b' := if b < i then s - i + b else b - i;
      if a' < b' { assert Apart(o, a', b'); } else { assert Apart(o, b', a'); }
    }
    forall a | 0 <= a < s ensures Mapped(m, r, a) {
      RotatedAt(o, i, a);
      assert Mapped(m, o, if a < i then s - i + a else a - i);
    }
  }

  /** Position `a` of the rotated list. */
  lemma RotatedAt(o: seq<PageId>, i: nat, a: int)
    requires i <= |o| && 0 <= a < |o|
    ensures Rotated(o, i)[a] == o[if a < i then |o| - i + a else a - i]
  {
    RotatedSlices(o, i);
  }

  lemma DropOneListed(m: map<PageId, Page>, o: seq<PageId>, d: nat)
    requires Listed(m, o) && d < |o|
    ensures var s := |o|; Listed(m - {o[s - 1 - d]}, o[s - d..] + o[..s - 1 - d])
  {
    var s := |o|;
    var x := o[s - 1 - d];
    RotatedListed(m, o, d);
    RotatedSlices(o, d);
    var q := Rotated(o, d);
    var r := o[s - d..] + o[..s - 1 - d];
    assert r == q[..s - 1];
    assert q[s - 1] == x;
    forall a, b | 0 <= a < b < |r| ensures Apart(r, a, b) {
      assert r[a] == q[a] && r[b] == q[b] && Apart(q, a, b);
    }
    var m' := m - {x};
    forall a | 0 <= a < |r| ensures Mapped(m', r, a) {
      assert r[a] == q[a] && Apart(q, a, s - 1) && Mapped(m, q, a);
    }
    assert Mapped(m, o, s - 1 - d);
    assert |m - {x}| == |m| - 1;
  }

  /** Eviction keeps the cache's invariant. */
  lemma EvictKeepsValid(v: CacheView, n: int)
    requires ViewValid(v)
    ensures ViewValid(EvictSpec(v, n).1)
  {
    if n > 0 && |v.entries| >= n {
      var d := DirtyRun(v, n, 0);
      if d < n {
        DropOneListed(v.entries, v.order, d);
      } else {
        RotatedListed(v.entries, v.order, n);
      }
    }
  }

  /** Eviction never drops a dirty page, drops at most one page, and leaves every remaining
      page's value as it was. */
  lemma EvictKeepsDirty(v: CacheView, n: int)
    requires ViewValid(v)
    ensures var w := EvictSpec(v, n).1;
      w.entries.Keys <= v.entries.Keys &&
      |v.entries.Keys - w.entries.Keys| <= 1 &&
      (forall k | k in v.entries && k !in w.entries :: !IsDirty(v.entries, k)) &&
      (forall k | k in w.entries :: w.entries[k] == v.entries[k])
  {
    var w := EvictSpec(v, n).1;
    if n > 0 && |v.entries| >= n {
      var s := |v.order|;
      var d := DirtyRun(v, n, 0);
      if d < n {
        DirtyRunSpec(v, n);
        var x := v.order[s - 1 - d];
        assert w.entries == v.entries - {x};
        assert v.entries.Keys - w.entries.Keys <= {x};
        assert |{x}| == 1;
        SubsetCard(v.entries.Keys - w.entries.Keys, {x});
      } else {
        assert w.entries == v.entries;
        assert v.entries.Keys - w.entries.Keys == {};
      }
    } else {
      assert w == v;
      assert v.entries.Keys - w.entries.Keys == {};
    }
  }

  /** When eviction succeeds at or above capacity, exactly one page goes, and it is the least
      recently used clean page among the last `n`: every page after it in the list is dirty. */
  lemma EvictDropsOldestClean(v: CacheView, n: int)
    requires ViewValid(v) && n > 0 && |v.entries| >= n
    requires EvictSpec(v, n).0.Pass?
    ensures var w := EvictSpec(v, n).1; var s := |v.order|;
      exists i | 0 <= i < s && s - n <= i ::
        w.entries == v.entries - {v.order[i]} && !IsDirty(v.entries, v.order[i]) &&
        (forall j | i < j < s :: IsDirty(v.entries, v.order[j]))
  {
    var s := |v.order|;
    var d := DirtyRun(v, n, 0);
    DirtyRunSpec(v, n);
    var i := s - 1 - d;
    assert Mapped(v.entries, v.order, i);
  }

  /** When every eviction attempt meets a dirty page, the last `n` pages are all dirty and the
      entries are unchanged; with exactly `n` pages cached the order is unchanged too. */
  lemma EvictFailsAllDirty(v: CacheView, n: int)
    requires ViewValid(v) && n > 0
    requires EvictSpec(v, n).0.Fail?
    ensures var w := EvictSpec(v, n).1; var s := |v.order|;
      s >= n && w.entries == v.entries && Elems(w.order) == Elems(v.order) &&
      (forall j | s - n <= j < s :: IsDirty(v.entries, v.order[j])) &&
      (s == n ==> w.order == v.order)
  {
    var s := |v.order|;
    DirtyRunSpec(v, n);
    RotatedListed(v.entries, v.order, n);
    ListedKeys(v.entries, v.order);
    ListedKeys(v.entries, Rotated(v.order, n));
    if s == n {
      RotatedSlices(v.order, n);
      assert v.order[s - n..] + v.order[..s - n] == v.order;
    }
  }

  /** Below capacity eviction does nothing; a cache with a clean page among its last `n`
      never raises. */
  lemma EvictBelowCapacity(v: CacheView, n: int)
    requires ViewValid(v) && n > 0 && |v.entries| < n
    ensures EvictSpec(v, n) == (Pass, v)
  {
  }

  lemma EvictCleanTailSucceeds(v: CacheView, n: int, i: int)
    requires ViewValid(v) && n > 0
    requires 0 <= i < |v.order| && |v.order| - n <= i && !IsDirty(v.entries, v.order[i])
    ensures EvictSpec(v, n).0.Pass?
  {
    if |v.entries| >= n {
      DirtyRunSpec(v, n);
    }
  }

  /** `LRUCache.put` on a view: the value is stored and the key becomes most recently used. */
  function PutView(v: CacheView, k: PageId, p: Page): (w: CacheView)
    ensures w.entries == v.entries[k := p]
  {
    CacheView(v.entries[k := p], [k] + RemoveKey(v.order, k))
  }

  lemma PutViewValid(v: CacheView, k: PageId, p: Page)
    requires ViewValid(v)
    ensures ViewValid(PutView(v, k, p))
    ensures |PutView(v, k, p).order| == |v.order| + (if k in v.entries then 0 else 1)
  {
    ListedIn(v.entries, v.order, k);
    RemoveKeyListed(v.entries, v.order, k);
    ConsListed(v.entries - {k}, RemoveKey(v.order, k), k, p);
    assert (v.entries - {k})[k := p] == v.entries[k := p];
  }

  /** The loop of `BufferPool.insertTuple`/`deleteTuple` on a view: each page the file
      reports is marked dirty by `tid`, put, and followed by an eviction; the first eviction
      that raises ends the loop. */
  ghost function StoreSpec(v: CacheView, tid: TransactionId, pages: seq<Page>, n: int): (r: (Outcome<DbError>, CacheView))
    requires ViewValid(v)
    ensures ViewValid(r.1)
  {
    if pages == [] then (Pass, v)
    else
      var front := StoreSpec(v, tid, pages[..|pages| - 1], n);
      if front.0.Fail? then front
      else
        var w := front.1;
        var p := pages[|pages| - 1].(dirtier := Some(tid));
        PutViewValid(w, p.id, p);
        EvictKeepsValid(PutView(w, p.id, p), n);
        EvictSpec(PutView(w, p.id, p), n)
  }

  /** Putting a page that was not cached and then evicting: besides the new page at most one
      page leaves the cache. */
  lemma PutEvictKeys(v: CacheView, k: PageId, p: Page, n: int)
    requires ViewValid(v) && k !in v.entries
    ensures ViewValid(PutView(v, k, p))
    ensures var w := EvictSpec(PutView(v, k, p), n).1;
      w.entries.Keys <= v.entries.Keys + {k} && |v.entries.Keys + {k} - w.entries.Keys| <= 1
  {
    PutViewValid(v, k, p);
    var u := PutView(v, k, p);
    EvictKeepsDirty(u, n);
    SameSets(u.entries.Keys, v.entries.Keys + {k}, EvictSpec(u, n).1.entries.Keys);
  }

  /** The key-set bound of `EvictKeepsDirty` carried over to an equal set, proved apart from
      the eviction facts, which swamp the solver when the two are mixed. */
  lemma SameSets<T>(a: set<T>, b: set<T>, c: set<T>)
    requires a == b && c <= a && |a - c| <= 1
    ensures c <= b && |b - c| <= 1
  {
  }

  /** Putting a page that was not cached and then evicting keeps every dirty page, with its
      value: the page that leaves, if any, is clean. */
  lemma PutEvictKeepsDirty(v: CacheView, k: PageId, p: Page, n: int, j: PageId)
    requires ViewValid(v) && k !in v.entries && IsDirty(v.entries, j)
    ensures ViewValid(PutView(v, k, p))
    ensures var w := EvictSpec(PutView(v, k, p), n).1; j in w.entries && w.entries[j] == v.entries[j]
  {
    PutViewValid(v, k, p);
    var u := PutView(v, k, p);
    EvictKeepsDirty(u, n);
    assert u.entries[j] == v.entries[j];
    assert IsDirty(u.entries, j);
  }

  /** Storing one more page: it is marked dirty, put, and an eviction follows. */
  lemma StoreStep(v: CacheView, tid: TransactionId, pages: seq<Page>, i: nat, n: int)
    requires ViewValid(v) && i < |pages|
    requires StoreSpec(v, tid, pages[..i], n).0.Pass?
    ensures var w := StoreSpec(v, tid, pages[..i], n).1; var p := pages[i].(dirtier := Some(tid));
      ViewValid(PutView(w, p.id, p)) &&
      StoreSpec(v, tid, pages[..i + 1], n) == EvictSpec(PutView(w, p.id, p), n)
  {
    PutViewValid(StoreSpec(v, tid, pages[..i], n).1, pages[i].id, pages[i].(dirtier := Some(tid)));
    assert pages[..i + 1][..i] == pages[..i];
  }

  /** Once storing a prefix of the pages has raised, storing all of them ends the same way. */
  lemma {:induction false} StoreFailSticks(v: CacheView, tid: TransactionId, pages: seq<Page>, j: nat, n: int)
    requires ViewValid(v) && j <= |pages|
    requires StoreSpec(v, tid, pages[..j], n).0.Fail?
    ensures StoreSpec(v, tid, pages, n) == StoreSpec(v, tid, pages[..j], n)
    decreases |pages|
  {
    if j < |pages| {
      var front := pages[..|pages| - 1];
      assert front[..j] == pages[..j];
      StoreFailSticks(v, tid, front, j, n);
    } else {
      assert pages[..j] == pages;
    }
  }

  /** A single reported page is stored dirty and survives the eviction that follows, whether
      or not that eviction raises: no-steal eviction never drops a dirty page. */
  lemma StoreOneKeeps(v: CacheView, tid: TransactionId, page: Page, n: int)
    requires ViewValid(v)
    ensures var w := StoreSpec(v, tid, [page], n).1;
      page.id in w.entries && w.entries[page.id] == page.(dirtier := Some(tid))
  {
    var p := page.(dirtier := Some(tid));
    assert [page][..0] == [];
    PutViewValid(v, p.id, p);
    EvictKeepsDirty(PutView(v, p.id, p), n);
    assert IsDirty(PutView(v, p.id, p).entries, p.id);
  }

  /** The cache after `i` dirty pages were popped and put back at the front. */
  function RotatedView(v: CacheView, i: nat): CacheView {
    CacheView(v.entries, Rotated(v.order, i))
  }

  /** One pass of `evictPage`'s loop at or above capacity, after `i` dirty pages: the page
      popped is the `i`-th from the tail. */
  lemma EvictPopped(v: CacheView, i: nat)
    requires ViewValid(v) && i < |v.order|
    ensures var s := |v.order|; var q := Rotated(v.order, i); var k := v.order[s - 1 - i];
      q[s - 1] == k && k in v.entries && k !in q[..s - 1]
  {
    var s := |v.order|;
    var q := Rotated(v.order, i);
    RotatedSlices(v.order, i);
    assert Mapped(v.entries, v.order, s - 1 - i);
    RotatedListed(v.entries, v.order, i);
    LastNotInFront(q);
  }

  /** A dirty page popped in that pass lengthens the dirty run past `i`. */
  lemma EvictDirtyStep(v: CacheView, n: int, i: nat)
    requires ViewValid(v) && 0 <= i < n <= |v.order| && |v.entries| >= n
    requires i > 0 ==> i <= DirtyRun(v, n, 0)
    requires IsDirty(v.entries, v.order[|v.order| - 1 - i])
    ensures i + 1 <= DirtyRun(v, n, 0)
  {
    DirtyRunSpec(v, n);
  }

  /** A dirty page popped in that pass and put back at the front leaves the cached pages as
      they were and rotates the list one step more. */
  lemma EvictDirtyRound(v: CacheView, i: nat)
    requires i < |v.order|
    requires var s := |v.order|; var q := Rotated(v.order, i); var k := v.order[s - 1 - i];
      q[s - 1] == k && k in v.entries && k !in q[..s - 1]
    ensures var s := |v.order|; var q := Rotated(v.order, i); var k := v.order[s - 1 - i];
      PutView(CacheView(v.entries - {k}, q[..s - 1]), k, v.entries[k]) == RotatedView(v, i + 1)
  {
    var s := |v.order|;
    var k := v.order[s - 1 - i];
    var q := Rotated(v.order, i);
    var w := PutView(CacheView(v.entries - {k}, q[..s - 1]), k, v.entries[k]);
    assert (v.entries - {k})[k := v.entries[k]] == v.entries;
    assert w.entries == v.entries;
    assert RemoveKey(q[..s - 1], k) == q[..s - 1];
    assert Rotated(v.order, i + 1) == [k] + q[..s - 1];
  }

  /** A clean page popped in that pass is the one eviction drops. */
  lemma EvictCleanStep(v: CacheView, n: int, i: nat)
    requires ViewValid(v) && 0 <= i < n <= |v.order| && |v.entries| >= n
    requires i > 0 ==> i <= DirtyRun(v, n, 0)
    requires !IsDirty(v.entries, v.order[|v.order| - 1 - i])
    ensures var s := |v.order|;
      EvictSpec(v, n) == (Pass, CacheView(v.entries - {v.order[s - 1 - i]}, Rotated(v.order, i)[..s - 1]))
  {
    DirtyRunStops(v, n, i);
    RotatedDropLast(v.order, i);
  }

  lemma DirtyRunStops(v: CacheView, n: int, i: nat)
    requires 0 <= i < n <= |v.order|
    requires i > 0 ==> i <= DirtyRun(v, n, 0)
    requires !IsDirty(v.entries, v.order[|v.order| - 1 - i])
    ensures DirtyRun(v, n, 0) == i
  {
    DirtyRunSpec(v, n);
  }

  lemma RotatedDropLast(o: seq<PageId>, i: nat)
    requires i < |o|
    ensures Rotated(o, i)[..|o| - 1] == o[|o| - i..] + o[..|o| - 1 - i]
  {
    RotatedSlices(o, i);
  }

  /** `numPages` dirty pages popped: eviction raises and the list is rotated. */
  lemma EvictAllDirty(v: CacheView, n: int)
    requires ViewValid(v) && 0 < n <= |v.order| && n <= DirtyRun(v, n, 0)
    ensures EvictSpec(v, n) == (Fail(DbException), RotatedView(v, n))
  {
  }
}
