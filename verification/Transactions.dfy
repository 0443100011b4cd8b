/** The `Transaction` object (db/transaction.go): buffered writes under two-phase locks, the
    shared lock table, and a commit through the database's single log record. */
module Transactions {
  import opened ByteStrings
  import opened Tables
  import opened TableReaders
  import opened WriteAheadLog
  import opened MemoryTable
  import opened SsTableStore
  import Commands
  import opened Engine
  import opened Database
  import opened Locks
  import S = Serializability
  import R = TransactionRuns

  class TransactionManager {
    var nextTransactionId: TxnId
    var keyVsLocksAcquired: LockTable

    constructor ()
      ensures nextTransactionId == 1 && keyVsLocksAcquired == map[]
    {
      nextTransactionId, keyVsLocksAcquired := 1, map[];
    }

    /** The lock table and the next id of a run of transactions. */
    ghost predicate Mirrors(m: S.Manager)
      reads this
    {
      m.locks == keyVsLocksAcquired && m.nextId == nextTransactionId
    }

    method Begin(db: DB) returns (t: Transaction)
      requires nextTransactionId != NOBODY
      modifies this
      ensures forall m :: old(Mirrors(m)) ==> t.Mirrors(S.Do(m, S.Begin))
      ensures fresh(t) && t.id == old(nextTransactionId) && t.db == db && t.manager == this
      ensures t.bufferedWriteMap == map[] && t.lockAcquiredKeys == []
      ensures nextTransactionId == old(nextTransactionId) + 1 && keyVsLocksAcquired == old(keyVsLocksAcquired)
    {
      t := new Transaction(nextTransactionId, db, this);
      nextTransactionId := nextTransactionId + 1;
    }
  }

  class Transaction {
    const id: TxnId
    const db: DB
    const manager: TransactionManager
    var bufferedWriteMap: Table
    var lockAcquiredKeys: seq<Bytes>

    constructor (id: TxnId, db: DB, manager: TransactionManager)
      ensures this.id == id && this.db == db && this.manager == manager
      ensures bufferedWriteMap == map[] && lockAcquiredKeys == []
    {
      this.id, this.db, this.manager := id, db, manager;
      bufferedWriteMap, lockAcquiredKeys := map[], [];
    }

    /** A transaction at work in a run. */
    ghost predicate Mirrors(m: S.Manager)
      reads this, manager
    {
      && manager.Mirrors(m)
      && id in m.txns && m.txns[id].phase.Live?
      && m.txns[id].buffer == bufferedWriteMap && m.txns[id].held == lockAcquiredKeys
    }

    method TryAcquireWriteLock(key: Bytes) returns (refused: Option<Refusal>)
      requires id != NOBODY
      modifies this`lockAcquiredKeys, manager`keyVsLocksAcquired
      ensures match AcquireWrite(old(manager.keyVsLocksAcquired), old(lockAcquiredKeys), id, key)
        case Refused(why) => (refused == Some(why) && lockAcquiredKeys == old(lockAcquiredKeys)
          && manager.keyVsLocksAcquired == old(manager.keyVsLocksAcquired))
        case Granted(table, held) => (refused == None && manager.keyVsLocksAcquired == table && lockAcquiredKeys == held)
    {
      var table := manager.keyVsLocksAcquired;
      var readLockAlreadyAcquired := false;
      var acquired := FREE;
      if key in table {
        acquired := table[key];
        if acquired.writer != NOBODY && acquired.writer != id {
          return Some(HeldByWriter(acquired.writer));
        }
        if acquired.writer == id {
          return None;
        }
        if |acquired.readers| > 1 {
          return Some(HeldByReaders);
        }
        if |acquired.readers| == 1 {
          if acquired.readers[0] != id {
            return Some(HeldByReaders);
          }
          readLockAlreadyAcquired := true;
          acquired := acquired.(readers := []);
        }
      }
      acquired := acquired.(writer := id);
      if !readLockAlreadyAcquired {
        lockAcquiredKeys := lockAcquiredKeys + [key];
      }
      manager.keyVsLocksAcquired := table[key := acquired];
      refused := None;
    }

    method TryAcquireReadLock(key: Bytes) returns (refused: Option<Refusal>)
      requires id != NOBODY
      modifies this`lockAcquiredKeys, manager`keyVsLocksAcquired
      ensures match AcquireRead(old(manager.keyVsLocksAcquired), old(lockAcquiredKeys), id, key)
        case Refused(why) => (refused == Some(why) && lockAcquiredKeys == old(lockAcquiredKeys)
          && manager.keyVsLocksAcquired == old(manager.keyVsLocksAcquired))
        case Granted(table, held) => (refused == None && manager.keyVsLocksAcquired == table && lockAcquiredKeys == held)
    {
      var table := manager.keyVsLocksAcquired;
      var writeLockAlreadyAcquired := false;
      var acquired := FREE;
      if key in table {
        acquired := table[key];
        if acquired.writer != NOBODY {
          if acquired.writer != id {
            return Some(HeldByWriter(acquired.writer));
          }
          writeLockAlreadyAcquired := true;
        }
      }
      for i := 0 to |acquired.readers|
        invariant id !in acquired.readers[..i]
        invariant lockAcquiredKeys == old(lockAcquiredKeys) && manager.keyVsLocksAcquired == table
      {
        if acquired.readers[i] == id {
          return None;
        }
      }
      acquired := acquired.(readers := acquired.readers + [id]);
      if !writeLockAlreadyAcquired {
        lockAcquiredKeys := lockAcquiredKeys + [key];
      }
      manager.keyVsLocksAcquired := table[key := acquired];
      refused := None;
    }

    /** Refused or granted, it is the act of a run. */
    method Put(key: Bytes, value: Bytes) returns (refused: Option<Refusal>)
      requires id != NOBODY
      modifies this, manager`keyVsLocksAcquired
      ensures forall m :: old(Mirrors(m)) ==> Mirrors(S.Do(m, S.TxnPut(id, key, value)))
      ensures match AcquireWrite(old(manager.keyVsLocksAcquired), old(lockAcquiredKeys), id, key)
        case Refused(why) => (refused == Some(why) && bufferedWriteMap == old(bufferedWriteMap)
          && lockAcquiredKeys == old(lockAcquiredKeys)
          && manager.keyVsLocksAcquired == old(manager.keyVsLocksAcquired))
        case Granted(table, held) => (refused == None && bufferedWriteMap == old(bufferedWriteMap)[key := value]
          && lockAcquiredKeys == held && manager.keyVsLocksAcquired == table)
    {
      refused := TryAcquireWriteLock(key);
      if refused.None? {
        bufferedWriteMap := bufferedWriteMap[key := value];
      }
    }

    /** A value only when the lock was granted: the own write, or what the database holds. */
    method Get(key: Bytes) returns (refused: Option<Refusal>, value: Outcome<Bytes>)
      requires id != NOBODY && db.Valid()
      modifies this`lockAcquiredKeys, manager`keyVsLocksAcquired
      ensures forall m :: old(Mirrors(m)) ==> Mirrors(S.Do(m, S.TxnGet(id, key)))
      ensures forall m :: (old(Mirrors(m)) && refused.None? && DbGet(db.Snap(), key, SLACK_AS_WRITTEN) == Ok(Lookup(m.store, key)) ==>
        value == Ok(S.TxnGetResult(m, id, key)))
      ensures refused.Some? <==> AcquireRead(old(manager.keyVsLocksAcquired), old(lockAcquiredKeys), id, key).Refused?
      ensures refused.None? ==>
        AcquireRead(old(manager.keyVsLocksAcquired), old(lockAcquiredKeys), id, key) ==
          Granted(manager.keyVsLocksAcquired, lockAcquiredKeys)
      ensures refused.None? ==> value == if key in bufferedWriteMap then Ok(bufferedWriteMap[key]) else DbGet(db.Snap(), key, SLACK_AS_WRITTEN)
    {
      refused := TryAcquireReadLock(key);
      value := Error;
      if refused.None? {
        if key in bufferedWriteMap {
          value := Ok(bufferedWriteMap[key]);
        } else {
          value := db.Get(key);
        }
      }
    }

    /** A key the table does not name the transaction on is reported and otherwise left alone. */
    method ReleaseAllLocks()
      requires forall k :: k in lockAcquiredKeys ==> k in manager.keyVsLocksAcquired
      modifies this`lockAcquiredKeys, manager`keyVsLocksAcquired
      ensures manager.keyVsLocksAcquired == ReleaseAll(old(manager.keyVsLocksAcquired), old(lockAcquiredKeys), id)
      ensures lockAcquiredKeys == []
    {
      ghost var before := manager.keyVsLocksAcquired;
      for i := 0 to |lockAcquiredKeys|
        invariant lockAcquiredKeys == old(lockAcquiredKeys)
        invariant manager.keyVsLocksAcquired == ReleaseAll(before, lockAcquiredKeys[..i], id)
      {
        var key := lockAcquiredKeys[i];
        assert lockAcquiredKeys[..i + 1][..i] == lockAcquiredKeys[..i];
        var acquired := LocksOn(manager.keyVsLocksAcquired, key);
        if acquired.writer == id {
          acquired := acquired.(writer := NOBODY);
        } else {
          var readers := RemoveReader(acquired.readers);
          acquired := acquired.(readers := readers);
        }
        manager.keyVsLocksAcquired := manager.keyVsLocksAcquired[key := acquired];
      }
      assert lockAcquiredKeys[..|lockAcquiredKeys|] == lockAcquiredKeys;
      lockAcquiredKeys := [];
    }

    method RemoveReader(readers: seq<TxnId>) returns (updated: seq<TxnId>)
      ensures updated == Without(readers, id)
    {
      updated := [];
      for i := 0 to |readers|
        invariant updated == Without(readers[..i], id)
      {
        assert readers[..i + 1][..i] == readers[..i];
        if readers[i] != id {
          updated := updated + [readers[i]];
        }
      }
      assert readers[..|readers|] == readers;
    }

    method Rollback()
      requires forall k :: k in lockAcquiredKeys ==> k in manager.keyVsLocksAcquired
      modifies this, manager`keyVsLocksAcquired
      ensures forall m :: old(Mirrors(m)) ==> manager.Mirrors(S.Do(m, S.Rollback(id)))
      ensures manager.keyVsLocksAcquired == ReleaseAll(old(manager.keyVsLocksAcquired), old(lockAcquiredKeys), id)
      ensures lockAcquiredKeys == [] && bufferedWriteMap == map[]
    {
      ReleaseAllLocks();
      bufferedWriteMap := map[];
    }

    /** The database first, under one log record, then the locks. */
    method Commit() returns (ghost order: seq<Entry>)
      requires db.Valid()
      requires forall k :: k in lockAcquiredKeys ==> k in manager.keyVsLocksAcquired
      modifies this, manager`keyVsLocksAcquired, db.wal, db.memTable, db.ssTable
      ensures Commands.Lists(order, old(bufferedWriteMap)) && DistinctKeys(order)
      ensures forall m :: old(Mirrors(m)) ==>
        S.CanRun(m, R.CommitActs(id, order)) && manager.Mirrors(S.After(m, R.CommitActs(id, order)))
      ensures db.Valid() && db.Snap() == WholeCommit(old(db.Cfg(false)), old(db.Snap()), order)
      ensures manager.keyVsLocksAcquired == ReleaseAll(old(manager.keyVsLocksAcquired), old(lockAcquiredKeys), id)
      ensures lockAcquiredKeys == [] && bufferedWriteMap == map[]
    {
      hide WholeCommit, R.CommitActs, S.CanRun, S.After, ReleaseAll;
      var compact;
      order, compact := db.Commit(bufferedWriteMap);
      ReleaseAllLocks();
      bufferedWriteMap := map[];
      forall m | old(Mirrors(m))
        ensures S.CanRun(m, R.CommitActs(id, order)) && manager.Mirrors(S.After(m, R.CommitActs(id, order)))
      {
        R.CommitActsRun(m, id, order);
      }
    }
  }
}
