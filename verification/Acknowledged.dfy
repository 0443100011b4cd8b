/** What a caller is promised once `DB.Put` or `Transaction.Commit` has returned (db/db.go,
    db/transaction.go): the writes are on disk, in the log or in a listed file. */
module Acknowledged {
  import opened ByteStrings
  import opened Tables
  import opened TableFormat
  import opened TableReaders
  import opened TableLookup
  import opened WriteAheadLog
  import opened MemoryTable
  import opened Commands
  import opened Store
  import opened Compaction
  import opened Engine
  import opened EngineSteps
  import opened EngineTheorems
  import opened Database

  /** A start on what the disk holds rebuilds exactly this map from files and log. */
  ghost predicate HoldsOnDisk(c: Config, db: Db, h: History, m: Table) {
    && Recover(c, db).Some?
    && MergedView(h.streams) + Recover(c, db).value.mem == m
    && Backed(db.disk, Recover(c, db).value.st, h.streams, c.blockLength)
  }

  /** The process may stop right behind an acknowledged put, */
  lemma PutSurvives(c: Config, steps: seq<Step>, db: Db, h: History, key: Bytes, value: Bytes) returns (more: seq<Step>, h': History)
    requires Runs(c, steps, db, h) && db.writer.Idle? && PutGranted(c, db, key, value)
    ensures Runs(c, steps + more, WholePut(c, db, key, value), h')
    ensures HoldsOnDisk(c, WholePut(c, db, key, value), h', h.written[key := value])
  {
    hide Runs, WholePut, Recover, PutGranted, MergedView, Backed;
    more, h' := PutIsRun(c, steps, db, h, key, value);
    CrashLosesNothing(c, steps + more, WholePut(c, db, key, value), h');
  }

  /** or right behind an acknowledged commit: nothing written before is gone, and every write of
      the transaction is there, in whatever order its map was visited. */
  lemma CommitSurvives(c: Config, steps: seq<Step>, db: Db, h: History, order: seq<Entry>, writes: Table) returns (more: seq<Step>, h': History)
    requires Runs(c, steps, db, h) && db.writer.Idle? && Lists(order, writes)
    requires DistinctKeys(order) && CommitGranted(c, db, order)
    ensures Runs(c, steps + more, WholeCommit(c, db, order), h')
    ensures HoldsOnDisk(c, WholeCommit(c, db, order), h', h.written + writes)
  {
    hide Runs, WholeCommit, Recover, CommitGranted, MergedView, Backed, ToTable, Lists;
    more, h' := CommitIsRun(c, steps, db, h, order);
    ListingReplays(order, writes);
    CrashLosesNothing(c, steps + more, WholeCommit(c, db, order), h');
  }

  /** Read back after a start, with the exact block length, every key has the value of the
      transaction if it wrote one and the value from before otherwise. */
  lemma CommitIsReadBack(c: Config, steps: seq<Step>, db: Db, h: History, order: seq<Entry>, writes: Table, key: Bytes)
    requires Runs(c, steps, db, h) && db.writer.Idle? && Lists(order, writes)
    requires DistinctKeys(order) && CommitGranted(c, db, order)
    requires key in h.written + writes ==> (h.written + writes)[key] != []
    ensures var after := Recover(c, WholeCommit(c, db, order));
      after.Some? && after.value.st.Readable() &&
      DbGet(after.value, key, 0) == Ok(if key in writes then writes[key] else Lookup(h.written, key))
  {
    hide Runs, WholeCommit, Recover, CommitGranted, MergedView, Backed, ToTable, Lists, DbGet;
    var more, h' := CommitIsRun(c, steps, db, h, order);
    ListingReplays(order, writes);
    var done := WholeCommit(c, db, order);
    CrashLosesNothing(c, steps + more, done, h');
    RunExtends(c, steps + more, done, h', Crash);
    GetIsMapLookup(c, (steps + more) + [Crash], Next(c, done, Crash), Recall(c, done, h', Crash), key);
    LookupLayers(h.written, writes, key);
  }

  // ----- where the writes are -----

  /** The writes are still in memtable and log, and no file has changed. */
  ghost predicate Buffered(db: Db, after: Db, record: Bytes, mem: Table) {
    && after.mem == mem && after.wal == db.wal + record
    && after.st == db.st && after.disk == db.disk && after.saved == db.saved
  }

  /** The memtable is in one more file, the newest, and memtable and log are empty. */
  ghost predicate Flushed(db: Db, after: Db) {
    && after.mem == map[] && after.wal == []
    && after.st.files == db.st.files + [db.st.manifest.nextFileId]
    && after.saved == after.st.manifest && after.saved.fileNames == db.st.manifest.fileNames + [db.st.manifest.nextFileId]
    && after.disk.Keys == db.disk.Keys + {db.st.manifest.nextFileId}
    && forall f :: f in db.disk && f != db.st.manifest.nextFileId ==> after.disk[f] == db.disk[f]
  }

  /** The new file, wholly written and not listed yet. */
  lemma FilledFile(c: Config, db: Db) returns (filled: Db)
    requires db.writer.Applied?
    ensures var created := Next(c, db, NewTable);
      && Enabled(created, FillSome(|created.writer.rest|)) && filled == Next(c, created, FillSome(|created.writer.rest|))
    ensures var id, s := db.st.manifest.nextFileId, Ascend(db.mem);
      && filled.writer == Filling(id, s, []) && filled.st == TakeId(db.st)
      && filled.disk == db.disk[id := Contents(Next(c, db, NewTable).disk, id) + FileBytes(s, c.blockLength)]
  {
    hide FileBytes, Ascend;
    var created := Next(c, db, NewTable);
    var id, rest := created.writer.id, created.writer.rest;
    FileBytesNonEmpty(created.writer.stream, c.blockLength);
    FillsWhole(rest);
    filled := Next(c, created, FillSome(|rest|));
  }

  /** Listing it and the two clears. */
  lemma ListedFile(c: Config, filled: Db)
    requires filled.writer.Filling? && filled.writer.rest == []
    ensures var cleared := Next(c, Next(c, filled, Publish), ClearMemtable);
      var st := AddFile(filled.st, filled.writer.id, IndexFor(Blocks(filled.writer.stream, c.blockLength)), |Encode(filled.writer.stream)|);
      Next(c, cleared, ClearLog) == filled.(wal := [], mem := map[], st := st, saved := st.manifest, writer := Idle)
  {
    hide AddFile, Blocks, IndexFor, Encode;
  }

  lemma FlushOutcome(c: Config, db: Db)
    requires db.writer.Applied?
    ensures Flushed(db, WholeFlush(c, db))
  {
    hide FileBytes, Blocks, IndexFor, Encode, Ascend, Next, Enabled;
    var filled := FilledFile(c, db);
    ListedFile(c, filled);
  }

  /** The record of a write, and the memtable with it. */
  function RecordOf(c: Config, step: Step): Bytes
    requires step.LogPut? || step.LogCommit?
  {
    Record(c.crc, if step.LogPut? then EncodePut(step.key, step.value) else EncodeTransaction(step.order))
  }

  function MemWith(db: Db, step: Step): Table
    requires step.LogPut? || step.LogCommit?
  {
    db.mem + ToTable(if step.LogPut? then [Entry(step.key, step.value)] else step.order)
  }

  /** A write flushes if and only if it brings the keys and values in the memtable to a thousand
      bytes; a flush takes the whole memtable to a file and empties the log. */
  lemma FlushIff(c: Config, db: Db, step: Step)
    requires db.writer.Idle? && (step.LogPut? || step.LogCommit?) && Enabled(db, step)
    ensures TotalSize(MemWith(db, step)) >= 1000 ==> Flushed(db, WholeApply(c, Next(c, db, step)))
    ensures TotalSize(MemWith(db, step)) < 1000 ==>
      Buffered(db, WholeApply(c, Next(c, db, step)), RecordOf(c, step), MemWith(db, step))
  {
    hide Record, EncodePut, EncodeTransaction, TotalSize, ToTable, WholeFlush;
    var applied := Next(c, Next(c, db, step), Apply);
    if applied.writer.Applied? {
      FlushOutcome(c, applied);
    }
  }
}
