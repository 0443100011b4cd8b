/** `insertIntoTable` with its locks (db/db.go): a refused lock does not stop it, so it commits
    whatever it got. */
module ContendedInserts {
  import opened ByteStrings
  import opened Tables
  import opened TableReaders
  import opened Rows
  import opened Catalog
  import opened SecondaryIndexes
  import opened IndexQueries
  import opened QueryLoops
  import Commands
  import opened Engine
  import opened Database
  import opened Locks
  import opened Transactions

  /** The lock table and the transaction an INSERT runs in. */
  datatype Work = Work(locks: LockTable, held: seq<Bytes>, buffer: Table)

  /** `Transaction.Put`; a refusal changes nothing. */
  function TryPut(w: Work, id: TxnId, key: Bytes, value: Bytes): Work {
    match AcquireWrite(w.locks, w.held, id, key)
    case Refused(_) => w
    case Granted(locks, held) => Work(locks, held, w.buffer[key := value])
  }

  datatype Entries = Entries(w: Work, ok: bool)

  /** `updateSecondaryIndexes` over the first n indexes: a missing value stops it, a refused lock
      does not. */
  function PutEntries(w: Work, id: TxnId, def: TableDef, values: Row, n: nat): Entries
    requires n <= |def.indexes| && |def.schema.columns| == |values|
  {
    if n == 0 then Entries(w, true)
    else
      var before := PutEntries(w, id, def, values, n - 1);
      var index := def.indexes[n - 1];
      var columnValues := IndexValues(def.schema.columns, index.columns, values);
      if !before.ok then before
      else if |columnValues| != |index.columns| || index.columns == [] || PkValue(def, values) == [] then before.(ok := false)
      else Entries(TryPut(before.w, id, IndexKey(def.name, index.name, columnValues, PkValue(def, values)), []), true)
  }

  /** What it commits, in a transaction of its own. A refused lock on the row empties a
      transaction that is empty; a missing value empties it before the commit. */
  function WorkUnder(locks: LockTable, id: TxnId, def: TableDef, values: Row): Option<Work> {
    if |values| != |def.schema.columns| then None
    else match SerialiseRow(def.schema.columns, values)
      case None => None
      case Some(row) =>
        var first := TryPut(Work(locks, [], map[]), id, RowKey(def.name, PkValue(def, values)), row);
        var all := PutEntries(first, id, def, values, |def.indexes|);
        Some(if all.ok then all.w else Work(ReleaseAll(all.w.locks, all.w.held, id), [], map[]))
  }

  function CommitsUnder(locks: LockTable, id: TxnId, def: TableDef, values: Row): Option<Table> {
    match WorkUnder(locks, id, def, values)
    case None => None
    case Some(w) => Some(w.buffer)
  }

  // ----- which keys it gets -----

  /** A put is buffered if and only if nobody else stands in its way, and leaves everybody's
      chances on other keys alone. */
  lemma TryPutIff(w: Work, id: TxnId, key: Bytes, value: Bytes)
    requires TableOk(w.locks) && id != NOBODY
    ensures var after := TryPut(w, id, key, value);
      && TableOk(after.locks)
      && after.buffer == (if Contended(w.locks, id, key) then w.buffer else w.buffer[key := value])
      && forall k :: k != key ==> (Contended(after.locks, id, k) <==> Contended(w.locks, id, k))
  {
    hide AcquireWrite, NoRepeats;
    WriteGrantedIff(w.locks, w.held, id, key);
    if AcquireWrite(w.locks, w.held, id, key).Granted? {
      StillOk(w.locks, w.held, id, key);
    }
  }

  lemma StillOk(table: LockTable, held: seq<Bytes>, id: TxnId, key: Bytes)
    requires TableOk(table) && AcquireWrite(table, held, id, key).Granted?
    ensures TableOk(AcquireWrite(table, held, id, key).table)
  {
    assert NoRepeats<TxnId>([]);
  }

  ghost predicate IsEntry(def: TableDef, values: Row, n: nat, k: Bytes)
    requires n <= |def.indexes| && |def.schema.columns| == |values|
  {
    exists i :: 0 <= i < n && k == RowIndexKey(def, def.indexes[i], values)
  }

  lemma EntriesApart(def: TableDef, values: Row, i: nat, j: nat)
    requires GoodDef(def) && GoodRow(def, values) && i < |def.indexes| && j < |def.indexes|
    requires RowIndexKey(def, def.indexes[i], values) == RowIndexKey(def, def.indexes[j], values)
    ensures i == j
  {
    hide HasPrefix, IndexKey, RowIndexKey, ColonFree, PkValue;
    OwnKeys(def, values);
    SameIndex(def, values, i, j);
  }

  /** The first n entries are buffered where nobody else stands in their way. */
  ghost predicate EntriesIn(w: Work, after: Work, id: TxnId, def: TableDef, values: Row, n: nat)
    requires n <= |def.indexes| && |def.schema.columns| == |values|
  {
    && TableOk(after.locks)
    && (forall k :: k in after.buffer <==> k in w.buffer || (IsEntry(def, values, n, k) && !Contended(w.locks, id, k)))
    && (forall k :: k in after.buffer ==> after.buffer[k] == if IsEntry(def, values, n, k) && !Contended(w.locks, id, k) then [] else w.buffer[k])
    && (forall k :: !IsEntry(def, values, n, k) ==> (Contended(after.locks, id, k) <==> Contended(w.locks, id, k)))
  }

  /** The n-th entry has all its values and is none of those before. */
  lemma NthEntry(def: TableDef, values: Row, n: nat)
    requires GoodDef(def) && GoodRow(def, values) && 0 < n <= |def.indexes| && |def.schema.columns| == |values|
    ensures var index := def.indexes[n - 1];
      |IndexValues(def.schema.columns, index.columns, values)| == |index.columns| && index.columns != [] && PkValue(def, values) != []
    ensures !IsEntry(def, values, n - 1, RowIndexKey(def, def.indexes[n - 1], values))
    ensures forall k :: IsEntry(def, values, n, k) <==>
      (IsEntry(def, values, n - 1, k) || k == RowIndexKey(def, def.indexes[n - 1], values))
  {
    hide IndexKey, RowIndexKey, ColonFree, PkValue, Canonical;
    var index := def.indexes[n - 1];
    assert GoodIndex(def, index);
    IndexValuesAt(def, index.columns, values);
    var last := RowIndexKey(def, index, values);
    if IsEntry(def, values, n - 1, last) {
      var i :| 0 <= i < n - 1 && last == RowIndexKey(def, def.indexes[i], values);
      EntriesApart(def, values, i, n - 1);
    }
    assert IsEntry(def, values, n, last);
  }

  lemma NoEntries(w: Work, id: TxnId, def: TableDef, values: Row)
    requires TableOk(w.locks) && |def.schema.columns| == |values|
    ensures EntriesIn(w, w, id, def, values, 0)
  {
  }

  lemma EntryStep(w: Work, before: Work, after: Work, id: TxnId, def: TableDef, values: Row, n: nat)
    requires 0 < n <= |def.indexes| && |def.schema.columns| == |values|
    requires EntriesIn(w, before, id, def, values, n - 1)
    requires var last := RowIndexKey(def, def.indexes[n - 1], values);
      && !IsEntry(def, values, n - 1, last)
      && (forall k :: IsEntry(def, values, n, k) <==> (IsEntry(def, values, n - 1, k) || k == last))
      && TableOk(after.locks)
      && after.buffer == (if Contended(before.locks, id, last) then before.buffer else before.buffer[last := []])
      && forall k :: k != last ==> (Contended(after.locks, id, k) <==> Contended(before.locks, id, k))
    ensures EntriesIn(w, after, id, def, values, n)
  {
    hide IsEntry, RowIndexKey, Contended, TableOk;
  }

  lemma {:induction false} EntriesPut(w: Work, id: TxnId, def: TableDef, values: Row, n: nat)
    requires TableOk(w.locks) && id != NOBODY && GoodDef(def) && GoodRow(def, values) && n <= |def.indexes|
    ensures PutEntries(w, id, def, values, n).ok && EntriesIn(w, PutEntries(w, id, def, values, n).w, id, def, values, n)
  {
    hide GoodRow, IndexKey, IndexValues, ColonFree, TableOk, Contended, TryPut, PkValue, IsEntry;
    RowLength(def, values);
    if n == 0 {
      NoEntries(w, id, def, values);
    } else {
      EntriesPut(w, id, def, values, n - 1);
      var before := PutEntries(w, id, def, values, n - 1).w;
      NthEntry(def, values, n);
      var last := RowIndexKey(def, def.indexes[n - 1], values);
      TryPutIff(before, id, last, []);
      var after := PutEntries(w, id, def, values, n).w;
      assert after == TryPut(before, id, last, []);
      EntryStep(w, before, after, id, def, values, n);
    }
  }

  // ----- the whole INSERT -----

  /** It commits exactly those of its writes in whose way nobody else stands. */
  lemma CommitsUnderIff(locks: LockTable, id: TxnId, def: TableDef, values: Row)
    requires TableOk(locks) && id != NOBODY && GoodDef(def) && GoodRow(def, values)
    ensures InsertWrites(def, values).Some? && CommitsUnder(locks, id, def, values).Some?
    ensures forall k :: k in CommitsUnder(locks, id, def, values).value <==>
      (k in InsertWrites(def, values).value && !Contended(locks, id, k))
    ensures forall k :: k in CommitsUnder(locks, id, def, values).value ==>
      CommitsUnder(locks, id, def, values).value[k] == InsertWrites(def, values).value[k]
  {
    hide GoodDef, GoodRow, InsertWrites, SerialiseRow, TableOk, Contended, TryPut, PutEntries, PkValue, RowKey, RowIndexKey, ColonFree;
    RowLength(def, values);
    WritesExactly(def, values);
    var writes, own := InsertWrites(def, values).value, RowKey(def.name, PkValue(def, values));
    var start := Work(locks, [], map[]);
    TryPutIff(start, id, own, writes[own]);
    var first := TryPut(start, id, own, writes[own]);
    EntriesPut(first, id, def, values, |def.indexes|);
    RowIsNoEntry(def, values);
    forall k
      ensures k in writes <==> k == own || IsEntry(def, values, |def.indexes|, k)
    {
    }
  }

  lemma RowIsNoEntry(def: TableDef, values: Row)
    requires GoodDef(def) && GoodRow(def, values) && |def.schema.columns| == |values|
    ensures !IsEntry(def, values, |def.indexes|, RowKey(def.name, PkValue(def, values)))
  {
    hide GoodDef, GoodRow, PkValue, RowKey, RowIndexKey;
    RowKeyIsNoEntry(def, values, values);
  }

  lemma RowOfKey(store: Table, def: TableDef, rows: RowsByKey, pk: Bytes)
    requires InStep(store, def, rows) && RowKey(def.name, pk) in store
    ensures pk in rows && RowStored(store, def, pk, rows[pk])
  {
    hide IsIndexKey, RowStored, HasPrefix, IndexKey;
    KeyUnderTable(def.name, pk);
    var p :| p in rows && RowKey(def.name, pk) == RowKey(def.name, p);
    if p != pk {
      RowKeysDiffer(def, p, pk);
    }
  }

  lemma RowOfEntry(store: Table, def: TableDef, rows: RowsByKey, values: Row, i: nat)
    requires GoodDef(def) && InStep(store, def, rows) && GoodRow(def, values) && i < |def.indexes| && |def.schema.columns| == |values|
    requires RowIndexKey(def, def.indexes[i], values) in store
    ensures PkValue(def, values) in rows && RowStored(store, def, PkValue(def, values), rows[PkValue(def, values)])
  {
    hide GoodDef, GoodRow, HasPrefix, IndexKey, RowKey, RowIndexKey, SerialiseRow, IsRowKey, PkValue, LastPart;
    OwnKeys(def, values);
    var k := RowIndexKey(def, def.indexes[i], values);
    assert IsIndexKey(def, def.indexes[i], rows, k);
    var p :| p in rows && |rows[p]| == |def.schema.columns| && k == RowIndexKey(def, def.indexes[i], rows[p]);
    assert RowStored(store, def, p, rows[p]);
    EntryNamesPk(def, i, rows[p]);
    EntryNamesPk(def, i, values);
  }

  /** Some of the writes are committed and some are not. */
  ghost predicate Partly(locks: LockTable, id: TxnId, writes: Table) {
    (exists k :: k in writes && Contended(locks, id, k)) && (exists k :: k in writes && !Contended(locks, id, k))
  }

  /** Under any locks, the INSERT of a new row leaves table and indexes in step, whatever rows that
      makes it, if and only if it got all of its locks or none: with the row refused, index entries
      without a row are committed, and with an entry refused, a row that its index does not know. */
  lemma ContendedInsertIff(store: Table, def: TableDef, rows: RowsByKey, locks: LockTable, id: TxnId, values: Row)
    requires TableOk(locks) && id != NOBODY && GoodDef(def) && GoodRow(def, values) && InStep(store, def, rows)
    requires PkValue(def, values) !in rows
    ensures InsertWrites(def, values).Some? && CommitsUnder(locks, id, def, values).Some?
    ensures (exists rows' :: InStep(store + CommitsUnder(locks, id, def, values).value, def, rows'))
      <==> !Partly(locks, id, InsertWrites(def, values).value)
  {
    hide GoodDef, GoodRow, InStep, InsertWrites, CommitsUnder, TableOk, Contended, PkValue;
    CommitsUnderIff(locks, id, def, values);
    var writes, committed := InsertWrites(def, values).value, CommitsUnder(locks, id, def, values).value;
    if !Partly(locks, id, writes) {
      AllOrNone(store, def, rows, locks, id, values);
    }
    if rows' :| InStep(store + committed, def, rows') {
      if Partly(locks, id, writes) {
        PartlyBreaks(store, def, rows, locks, id, values, rows');
      }
    }
  }

  lemma AllOrNone(store: Table, def: TableDef, rows: RowsByKey, locks: LockTable, id: TxnId, values: Row)
    requires TableOk(locks) && id != NOBODY && GoodDef(def) && GoodRow(def, values) && InStep(store, def, rows)
    requires PkValue(def, values) !in rows
    requires InsertWrites(def, values).Some? && !Partly(locks, id, InsertWrites(def, values).value)
    ensures CommitsUnder(locks, id, def, values).Some?
    ensures exists rows' :: InStep(store + CommitsUnder(locks, id, def, values).value, def, rows')
  {
    hide GoodDef, InStep, InsertWrites, CommitsUnder, TableOk, Contended, PkValue, Canonical, ColonFree;
    CommitsUnderIff(locks, id, def, values);
    var writes, committed := InsertWrites(def, values).value, CommitsUnder(locks, id, def, values).value;
    if exists k :: k in writes && Contended(locks, id, k) {
      assert committed == map[];
      assert store + committed == store;
    } else {
      assert committed == writes;
      InsertKeepsInStep(store, def, rows, values);
      assert InStep(store + committed, def, rows[PkValue(def, values) := values]);
    }
  }

  lemma PartlyBreaks(store: Table, def: TableDef, rows: RowsByKey, locks: LockTable, id: TxnId, values: Row, rows': RowsByKey)
    requires TableOk(locks) && id != NOBODY && GoodDef(def) && GoodRow(def, values) && InStep(store, def, rows)
    requires PkValue(def, values) !in rows
    requires InsertWrites(def, values).Some? && Partly(locks, id, InsertWrites(def, values).value)
    requires CommitsUnder(locks, id, def, values).Some?
    ensures !InStep(store + CommitsUnder(locks, id, def, values).value, def, rows')
  {
    hide GoodDef, GoodRow, InStep, InsertWrites, CommitsUnder, TableOk, Contended, PkValue, RowKey, RowIndexKey, SerialiseRow;
    RowLength(def, values);
    CommitsUnderIff(locks, id, def, values);
    WritesExactly(def, values);
    var writes, committed := InsertWrites(def, values).value, CommitsUnder(locks, id, def, values).value;
    var pk := PkValue(def, values);
    var own, after := RowKey(def.name, pk), store + committed;
    if InStep(after, def, rows') {
      if Contended(locks, id, own) {
        var k :| k in writes && !Contended(locks, id, k);
        var i :| 0 <= i < |def.indexes| && k == RowIndexKey(def, def.indexes[i], values);
        RowOfEntry(after, def, rows', values, i);
        assert own in store;
        RowOfKey(store, def, rows, pk);
      } else {
        RowOfKey(after, def, rows', pk);
        SameRow(def, values, rows'[pk]);
        var k :| k in writes && Contended(locks, id, k);
        var i :| 0 <= i < |def.indexes| && k == RowIndexKey(def, def.indexes[i], values);
        assert k in after && k in store;
        RowOfEntry(store, def, rows, values, i);
      }
    }
  }

  /** Two good rows stored as the same bytes are the same. */
  lemma SameRow(def: TableDef, a: Row, b: Row)
    requires GoodDef(def) && GoodRow(def, a) && GoodRow(def, b)
    requires SerialiseRow(def.schema.columns, a) == SerialiseRow(def.schema.columns, b)
    ensures a == b
  {
    hide SerialiseRow, DeserialiseRow, Canonical, ColonFree, PkValue;
    KnownTypesOf(def);
    RowRoundTripIff(def.schema.columns, a);
    RowRoundTripIff(def.schema.columns, b);
  }

  // ----- the method -----

  lemma {:induction false} EntriesStop(w: Work, id: TxnId, def: TableDef, values: Row, n: nat)
    requires n <= |def.indexes| && |def.schema.columns| == |values| && !PutEntries(w, id, def, values, n).ok
    ensures PutEntries(w, id, def, values, |def.indexes|) == PutEntries(w, id, def, values, n)
    decreases |def.indexes| - n
  {
    hide IndexValues, IndexKey, TryPut;
    if n < |def.indexes| {
      EntriesStop(w, id, def, values, n + 1);
    }
  }

  predicate HeldInTable(held: seq<Bytes>, locks: LockTable) {
    forall k :: k in held ==> k in locks
  }

  method UpdateSecondaryIndexes(txn: Transaction, def: TableDef, values: Row) returns (ok: bool)
    requires |def.schema.columns| == |values| && txn.id != NOBODY && HeldInTable(txn.lockAcquiredKeys, txn.manager.keyVsLocksAcquired)
    modifies txn, txn.manager`keyVsLocksAcquired
    ensures HeldInTable(txn.lockAcquiredKeys, txn.manager.keyVsLocksAcquired)
    ensures Entries(Work(txn.manager.keyVsLocksAcquired, txn.lockAcquiredKeys, txn.bufferedWriteMap), ok) ==
      PutEntries(old(Work(txn.manager.keyVsLocksAcquired, txn.lockAcquiredKeys, txn.bufferedWriteMap)), txn.id, def, values, |def.indexes|)
  {
    hide IndexValues, IndexKey, PkValue;
    ghost var w := Work(txn.manager.keyVsLocksAcquired, txn.lockAcquiredKeys, txn.bufferedWriteMap);
    for i := 0 to |def.indexes|
      invariant HeldInTable(txn.lockAcquiredKeys, txn.manager.keyVsLocksAcquired)
      invariant PutEntries(w, txn.id, def, values, i) ==
        Entries(Work(txn.manager.keyVsLocksAcquired, txn.lockAcquiredKeys, txn.bufferedWriteMap), true)
    {
      var index := def.indexes[i];
      var found := GetIndexAndPrimaryKeyColumnValues(def, index.columns, values);
      if found.None? {
        EntriesStop(w, txn.id, def, values, i + 1);
        return false;
      }
      var key := GetSecondaryIndexKeyOrPrefix(def.name, index.name, found.value.columnValues, found.value.pk);
      var refused := txn.Put(key, []);
    }
    ok := true;
  }

  /** After a refused row it goes on, and it commits in any case. */
  method InsertIntoTable(manager: TransactionManager, db: DB, def: TableDef, values: Row) returns (ok: bool, ghost order: seq<Entry>)
    requires db.Valid() && manager.nextTransactionId != NOBODY
    modifies manager, db.wal, db.memTable, db.ssTable
    ensures db.Valid()
    ensures ok <==> old(WorkUnder(manager.keyVsLocksAcquired, manager.nextTransactionId, def, values)).Some?
    ensures !ok ==> db.Snap() == old(db.Snap()) && manager.keyVsLocksAcquired == old(manager.keyVsLocksAcquired)
    ensures ok ==> var w := old(WorkUnder(manager.keyVsLocksAcquired, manager.nextTransactionId, def, values)).value;
      && Commands.Lists(order, w.buffer) && DistinctKeys(order)
      && db.Snap() == WholeCommit(old(db.Cfg(false)), old(db.Snap()), order)
      && manager.keyVsLocksAcquired == ReleaseAll(w.locks, w.held, old(manager.nextTransactionId))
  {
    hide SerialiseRow, IndexValues, IndexKey, PkValue, WholeCommit, ReleaseAll, Commands.Lists, DistinctKeys, PutEntries;
    var txn := manager.Begin(db);
    ok, order := false, [];
    if |values| != |def.schema.columns| {
      return;
    }
    var row := SerialiseRowLoop(def.schema.columns, values);
    if row.None? {
      return;
    }
    var refused := txn.Put(RowKey(def.name, PkValue(def, values)), row.value);
    if refused.Some? {
      assert ReleaseAll(txn.manager.keyVsLocksAcquired, [], txn.id) == txn.manager.keyVsLocksAcquired by { NothingReleased(txn.manager.keyVsLocksAcquired, txn.id); }
      txn.Rollback();
    }
    var indexed := UpdateSecondaryIndexes(txn, def, values);
    if !indexed {
      txn.Rollback();
    }
    order := txn.Commit();
    ok := true;
  }

  lemma NothingReleased(locks: LockTable, id: TxnId)
    ensures ReleaseAll(locks, [], id) == locks
  {
  }
}
