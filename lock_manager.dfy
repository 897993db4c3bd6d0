/** `LockManager`: the page lock table. Every public Java method is `synchronized` on the
    manager, so calls are atomic and are modelled sequentially. */
module LockManagers {
  import opened DbTypes
  import opened PageLocks
  import opened Sets

  /** The table as a value: page -> (transaction -> stored lock type). */
  type LockTable = map<PageId, map<TransactionId, int>>

  /** `isHold`: the type `tid` holds on `pid`, or -1 when it holds nothing there. */
  function HoldOf(table: LockTable, pid: PageId, tid: TransactionId): int {
    if pid in table && tid in table[pid] then table[pid][tid] else -1
  }

  /** Every row is non-empty and has at most one entry. */
  ghost predicate WellFormed(table: LockTable) {
    forall p | p in table :: |table[p]| == 1
  }

  /** Every stored type is one of the two modes. */
  ghost predicate ModesOnly(table: LockTable) {
    forall p, t | p in table && t in table[p] :: table[p][t] == SHARE || table[p][t] == EXCLUSIVE
  }

  /** The entry of the sole holder of a row is Exclusive. */
  predicate SoleExclusive(row: map<TransactionId, int>) {
    |row| == 1 && exists u | u in row :: row[u] == EXCLUSIVE
  }

  /** `acquireLock` on the table value: whether the lock is granted, and the new table. */
  function Acquire(table: LockTable, pid: PageId, tid: TransactionId, lockType: int): (r: (bool, LockTable))
    ensures !r.0 ==> r.1 == table
  {
    if pid !in table || table[pid] == map[] then
      // no row, or an empty row: the requester becomes the only entry
      (true, table[pid := map[tid := lockType]])
    else
      var row := table[pid];
      var hold := HoldOf(table, pid, tid);
      if hold == -1 then
        if lockType == EXCLUSIVE then (false, table)
        else if SoleExclusive(row) then (false, table)
        else (true, table)   // granted, but no entry is recorded
      else if hold == SHARE then
        if lockType == SHARE then (true, table)
        else if |row| == 1 then (true, table[pid := row[tid := EXCLUSIVE]])
        else (false, table)
      else (true, table)
  }

  /** `releaseLock` on the table value. */
  function Release(table: LockTable, pid: PageId, tid: TransactionId): (r: (bool, LockTable))
    ensures !r.0 <==> HoldOf(table, pid, tid) == -1
    ensures !r.0 ==> r.1 == table
  {
    if HoldOf(table, pid, tid) == -1 then (false, table)
    else
      var row := table[pid] - {tid};
      (true, if row == map[] then table - {pid} else table[pid := row])
  }

  /** `releaseLock(pid, tid)` takes away exactly `tid`'s entry on `pid`: every other
      transaction's entry on every page, and `tid`'s entries on other pages, stay. */
  lemma ReleaseSpec(table: LockTable, pid: PageId, tid: TransactionId, p: PageId, u: TransactionId)
    ensures HoldOf(Release(table, pid, tid).1, pid, tid) == -1
    ensures p != pid || u != tid ==> HoldOf(Release(table, pid, tid).1, p, u) == HoldOf(table, p, u)
  {
    if HoldOf(table, pid, tid) != -1 && p == pid && u != tid && u in table[pid] {
      assert u in table[pid] - {tid};
    }
  }

  /** The table after `releaseLock(p, tid)` has been applied to the pages of `done` that
      `tid` holds; rows are independent, so the order does not matter. */
  function ReleaseOn(table: LockTable, tid: TransactionId, done: set<PageId>): LockTable {
    map p | p in table && !(p in done && HoldOf(table, p, tid) != -1 && table[p] - {tid} == map[])
      :: if p in done && HoldOf(table, p, tid) != -1 then table[p] - {tid} else table[p]
  }

  /** `releaseLockByTxn` on the table value. */
  function ReleaseAll(table: LockTable, tid: TransactionId): LockTable {
    ReleaseOn(table, tid, table.Keys)
  }

  /** A request on a page with no entries makes the requester its only holder. */
  lemma AcquireFreshRow(table: LockTable, pid: PageId, tid: TransactionId, lockType: int)
    requires pid !in table
    ensures Acquire(table, pid, tid, lockType) == (true, table[pid := map[tid := lockType]])
    ensures HoldOf(Acquire(table, pid, tid, lockType).1, pid, tid) == lockType
  {
  }

  /** Acquisition never changes another transaction's entries. */
  lemma AcquireOthersUnchanged(table: LockTable, pid: PageId, tid: TransactionId, lockType: int,
                               p: PageId, u: TransactionId)
    requires u != tid
    ensures HoldOf(Acquire(table, pid, tid, lockType).1, p, u) == HoldOf(table, p, u)
  {
  }

  /** A transaction that holds nothing on a page that already has a holder is refused
      Exclusive; it is granted Shared unless the holder is Exclusive, and then no entry is
      recorded, so it still does not hold the page. */
  lemma NonHolderRequest(table: LockTable, pid: PageId, tid: TransactionId, lockType: int)
    requires pid in table && table[pid] != map[] && HoldOf(table, pid, tid) == -1
    ensures var (granted, after) := Acquire(table, pid, tid, lockType);
      after == table && HoldOf(after, pid, tid) == -1 &&
      (granted <==> lockType != EXCLUSIVE && !SoleExclusive(table[pid]))
  {
  }

  /** A Shared holder asking for Exclusive is upgraded in place exactly when it is the
      page's only entry. */
  lemma UpgradeSoleHolder(table: LockTable, pid: PageId, tid: TransactionId)
    requires HoldOf(table, pid, tid) == SHARE
    ensures var (granted, after) := Acquire(table, pid, tid, EXCLUSIVE);
      (granted <==> |table[pid]| == 1) &&
      (granted ==> HoldOf(after, pid, tid) == EXCLUSIVE) &&
      (!granted ==> after == table)
  {
  }

  /** A transaction already holding what it asks for is granted with no change: an Exclusive
      holder for any request, a Shared holder for a Shared request. */
  lemma HolderRequest(table: LockTable, pid: PageId, tid: TransactionId, lockType: int)
    requires HoldOf(table, pid, tid) == EXCLUSIVE ||
      (HoldOf(table, pid, tid) == SHARE && lockType == SHARE)
    ensures Acquire(table, pid, tid, lockType) == (true, table)
  {
  }

  /** Acquisition and release keep every row at exactly one entry and every stored type a mode. */
  lemma AcquirePreservesWellFormed(table: LockTable, pid: PageId, tid: TransactionId, lockType: int)
    requires WellFormed(table)
    ensures WellFormed(Acquire(table, pid, tid, lockType).1)
  {
  }

  lemma AcquirePreservesModes(table: LockTable, pid: PageId, tid: TransactionId, lockType: int)
    requires ModesOnly(table)
    requires lockType == SHARE || lockType == EXCLUSIVE
    ensures ModesOnly(Acquire(table, pid, tid, lockType).1)
  {
  }

  lemma ReleasePreservesWellFormed(table: LockTable, pid: PageId, tid: TransactionId)
    requires WellFormed(table)
    ensures WellFormed(Release(table, pid, tid).1)
  {
    var r := Release(table, pid, tid).1;
    if HoldOf(table, pid, tid) != -1 {
      assert table[pid].Keys == {tid} by {
        assert tid in table[pid].Keys;
        if table[pid].Keys != {tid} {
          var u :| u in table[pid].Keys && u != tid;
          assert {tid, u} <= table[pid].Keys;
          assert |{tid, u}| == 2;
          SubsetCard({tid, u}, table[pid].Keys);
        }
      }
      assert table[pid] - {tid} == map[];
    }
  }

  /** In a well-formed table, an Exclusive entry is the only entry on its page:
      no other transaction holds that page in any mode. */
  lemma ExclusiveIsAlone(table: LockTable, pid: PageId, tid: TransactionId, u: TransactionId)
    requires WellFormed(table)
    requires HoldOf(table, pid, tid) == EXCLUSIVE && u != tid
    ensures HoldOf(table, pid, u) == -1
  {
    if u in table[pid] {
      assert {tid, u} <= table[pid].Keys;
      SubsetCard({tid, u}, table[pid].Keys);
      assert false;
    }
  }

  /** One more page released: releasing `p` after the pages of `done` gives `done + {p}`. */
  lemma ReleaseOnStep(table: LockTable, tid: TransactionId, done: set<PageId>, p: PageId)
    requires p !in done
    ensures var before := ReleaseOn(table, tid, done);
      ReleaseOn(table, tid, done + {p})
        == if HoldOf(before, p, tid) != -1 then Release(before, p, tid).1 else before
  {
    var before := ReleaseOn(table, tid, done);
    assert HoldOf(before, p, tid) == HoldOf(table, p, tid);
    if HoldOf(table, p, tid) != -1 {
      var after := Release(before, p, tid).1;
      var want := ReleaseOn(table, tid, done + {p});
      assert before[p] == table[p];
      assert forall q :: q in after <==> q in want;
      assert forall q | q in after :: after[q] == want[q];
    }
  }

  /** After `releaseLockByTxn(tid)`, `tid` holds nothing anywhere, and every other
      transaction holds exactly what it held before. */
  lemma ReleaseAllSpec(table: LockTable, tid: TransactionId, p: PageId, u: TransactionId)
    ensures HoldOf(ReleaseAll(table, tid), p, tid) == -1
    ensures u != tid ==> HoldOf(ReleaseAll(table, tid), p, u) == HoldOf(table, p, u)
  {
    var r := ReleaseAll(table, tid);
    if p in table && u != tid && u in table[p] {
      assert u in table[p] - {tid};
    }
  }

  /** The lock manager. Java keeps a `PageLock` object per entry; each is reachable only
      from its own row and its `tid` always equals the row key, so the row is modelled as
      the map from transaction to stored type, and `setType` on the entry as an update of
      that map. */
  class LockManager {
    var lockMap: LockTable

    /** Every row has exactly one entry (see `WellFormed`). */
    ghost predicate Valid()
      reads this
    {
      WellFormed(lockMap)
    }

    constructor ()
      ensures Valid() && lockMap == map[]
    {
      lockMap := map[];
    }

    /** `isHold(pid, tid)`: the type `tid` holds on `pid`, or -1. */
    function IsHold(pid: PageId, tid: TransactionId): (r: int)
      reads this
      ensures r == HoldOf(lockMap, pid, tid)
    {
      if pid !in lockMap then -1 else IsHoldIn(lockMap[pid], tid)
    }

    /** `isHold(locks, tid)`: the type `tid` holds in one row, or -1. */
    function IsHoldIn(locks: map<TransactionId, int>, tid: TransactionId): (r: int)
      ensures tid !in locks ==> r == -1
      ensures tid in locks ==> r == locks[tid]
    {
      if tid !in locks then -1 else locks[tid]
    }

    /** `acquireLock`: the table changes exactly as `Acquire` says. */
    method AcquireLock(pid: PageId, tid: TransactionId, lockType: int) returns (granted: bool)
      requires Valid()
      modifies this
      ensures Valid()
      ensures (granted, lockMap) == Acquire(old(lockMap), pid, tid, lockType)
    {
      AcquirePreservesWellFormed(lockMap, pid, tid, lockType);
      if pid !in lockMap {
        lockMap := lockMap[pid := map[tid := lockType]];
        return true;
      }
      var locks := lockMap[pid];
      var hold := IsHoldIn(locks, tid);
      if hold == -1 {
        // rows are never left empty (`Valid`), so the source's empty-row case cannot arise
        if lockType == EXCLUSIVE {
          return false;
        }
        if |locks| == 1 {
          var u :| u in locks;
          OneKey(locks, u);
          if locks[u] == EXCLUSIVE {
            return false;
          }
        }
        return true;
      }
      if hold == SHARE {
        if lockType == SHARE {
          return true;
        }
        if |locks| == 1 {
          lockMap := lockMap[pid := locks[tid := EXCLUSIVE]];
          return true;
        }
        return false;
      }
      return true;
    }

    /** `tryLock`: the spin holds the manager's monitor, so the table cannot change while
        it waits and the outcome is that of a single attempt. */
    method TryLock(pid: PageId, tid: TransactionId, lockType: int) returns (granted: bool)
      requires Valid()
      modifies this
      ensures Valid()
      ensures (granted, lockMap) == Acquire(old(lockMap), pid, tid, lockType)
    {
      granted := AcquireLock(pid, tid, lockType);
    }

    /** `releaseLock`. */
    method ReleaseLock(pid: PageId, tid: TransactionId) returns (released: bool)
      requires Valid()
      modifies this
      ensures Valid()
      ensures (released, lockMap) == Release(old(lockMap), pid, tid)
    {
      ReleasePreservesWellFormed(lockMap, pid, tid);
      if IsHold(pid, tid) == -1 {
        return false;
      }
      var row := lockMap[pid] - {tid};
      if row == map[] {
        lockMap := lockMap - {pid};
      } else {
        lockMap := lockMap[pid := row];
      }
      return true;
    }

    /** `releaseLockByTxn`: release `tid`'s entry on every page of a snapshot of the keys. */
    method ReleaseLockByTxn(tid: TransactionId)
      requires Valid()
      modifies this
      ensures Valid()
      ensures lockMap == ReleaseAll(old(lockMap), tid)
    {
      var pages := lockMap.Keys;
      ghost var m0 := lockMap;
      ghost var done: set<PageId> := {};
      while pages != {}
        invariant Valid()
        invariant pages + done == m0.Keys && pages !! done
        invariant lockMap == ReleaseOn(m0, tid, done)
        decreases pages
      {
        var p :| p in pages;
        ReleaseOnStep(m0, tid, done, p);
        ghost var before := lockMap;
        if IsHold(p, tid) != -1 {
          var _ := ReleaseLock(p, tid);
        }
        assert lockMap == ReleaseOn(m0, tid, done + {p}) by {
          assert before == ReleaseOn(m0, tid, done);
        }
        pages := pages - {p};
        done := done + {p};
      }
      assert done == m0.Keys;
    }
  }

  lemma OneKey<K, V>(m: map<K, V>, u: K)
    requires |m| == 1 && u in m
    ensures m.Keys == {u}
  {
    if m.Keys != {u} {
      var w :| w in m.Keys && w != u;
      assert {u, w} <= m.Keys;
      SubsetCard({u, w}, m.Keys);
    }
  }
}
