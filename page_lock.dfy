/** `PageLock`: one lock-table entry, a transaction and the mode it holds. */
module PageLocks {
  import opened DbTypes

  /** The two lock modes, as the integer codes the lock table stores. */
  const SHARE: int := 0
  const EXCLUSIVE: int := 1

  class PageLock {
    var tid: TransactionId
    /** `type` in Java: `SHARE` or `EXCLUSIVE` as passed by the caller. */
    var lockType: int

    constructor (tid: TransactionId, lockType: int)
      ensures this.tid == tid && this.lockType == lockType
    {
      this.tid := tid;
      this.lockType := lockType;
    }

    /** `setTid`: only the transaction changes. */
    method SetTid(tid: TransactionId)
      modifies this
      ensures this.tid == tid && lockType == old(lockType)
    {
      this.tid := tid;
    }

    /** `setType`: only the mode changes (used for the Shared-to-Exclusive upgrade). */
    method SetType(lockType: int)
      modifies this
      ensures this.lockType == lockType && tid == old(tid)
    {
      this.lockType := lockType;
    }
  }
}
