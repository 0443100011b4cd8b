/** The `DB` object over its log, memtable and SSTables (db/db.go, db/transaction.go): each
    whole operation is the composition of the engine's steps. */
module Database {
  import opened ByteStrings
  import opened Tables
  import opened TableFormat
  import opened TableReaders
  import opened TableScans
  import opened WriteAheadLog
  import opened Commands
  import opened MemoryTable
  import opened Store
  import opened Compaction
  import opened SsTableStore
  import opened Engine
  import opened EngineSteps

  // ----- whole operations as runs of steps -----

  /** `createSsTableAndClearWalAndMemTable`, with no compaction in between. */
  ghost function WholeFlush(c: Config, db: Db): (done: Db)
    requires db.writer.Applied?
    ensures done.writer.Idle?
  {
    var created := Next(c, db, NewTable);
    var filled := Next(c, created, FillSome(|created.writer.rest|));
    var published := Next(c, filled, Publish);
    Next(c, Next(c, published, ClearMemtable), ClearLog)
  }

  /** The rest of a write once its record is in the log. */
  ghost function WholeApply(c: Config, db: Db): (done: Db)
    requires db.writer.Logged?
    ensures done.writer.Idle?
  {
    var applied := Next(c, db, Apply);
    if applied.writer.Idle? then applied else WholeFlush(c, applied)
  }

  ghost function WholePut(c: Config, db: Db, key: Bytes, value: Bytes): (done: Db)
    requires db.writer.Idle?
    ensures done.writer.Idle?
  {
    WholeApply(c, Next(c, db, LogPut(key, value)))
  }

  ghost function WholeCommit(c: Config, db: Db, order: seq<Entry>): Db
    requires db.writer.Idle? && DistinctKeys(order)
  {
    WholeApply(c, Next(c, db, LogCommit(order)))
  }

  lemma FillsWhole(rest: Bytes)
    ensures rest[..|rest|] == rest && rest[|rest|..] == []
  {
  }

  /** One more granted step makes a longer run. */
  lemma RunExtends(c: Config, steps: seq<Step>, db: Db, h: History, step: Step)
    requires Runs(c, steps, db, h) && Enabled(db, step) && Granted(c, db, step)
    ensures Runs(c, steps + [step], Next(c, db, step), Recall(c, db, h, step))
  {
    hide Next, Recall, Enabled, Granted;
    assert (steps + [step])[..|steps|] == steps;
    assert RunsTo(c, steps + [step], db, h, Next(c, db, step), Recall(c, db, h, step));
  }

  /** Listing a whole file and clearing memtable and log are three more steps of a run. */
  lemma ListingIsRun(c: Config, steps: seq<Step>, db: Db, h: History) returns (h': History)
    requires Runs(c, steps, db, h) && db.writer.Filling? && db.writer.rest == []
    ensures var cleared := Next(c, Next(c, db, Publish), ClearMemtable);
      Runs(c, steps + [Publish, ClearMemtable, ClearLog], Next(c, cleared, ClearLog), h')
    ensures h'.written == h.written
  {
    hide Runs, FileBytes, Blocks, IndexFor, Encode, Ascend, Effect, AddFile, Log;
    var d1, h1 := Next(c, db, Publish), Recall(c, db, h, Publish);
    RunExtends(c, steps, db, h, Publish);
    var d2, h2 := Next(c, d1, ClearMemtable), Recall(c, d1, h1, ClearMemtable);
    RunExtends(c, steps + [Publish], d1, h1, ClearMemtable);
    RunExtends(c, steps + [Publish] + [ClearMemtable], d2, h2, ClearLog);
    assert steps + [Publish] + [ClearMemtable] + [ClearLog] == steps + [Publish, ClearMemtable, ClearLog];
    h' := Recall(c, d2, h2, ClearLog);
  }

  lemma FlushIsRun(c: Config, steps: seq<Step>, db: Db, h: History)
    requires Runs(c, steps, db, h) && db.writer.Applied? && Granted(c, db, NewTable)
    ensures exists more, h' :: Runs(c, steps + more, WholeFlush(c, db), h') && h'.written == h.written
  {
    hide Runs, FileBytes, Blocks, IndexFor, Encode, Ascend, Effect, AddFile, Log;
    var d1, h1 := Next(c, db, NewTable), Recall(c, db, h, NewTable);
    RunExtends(c, steps, db, h, NewTable);
    FileBytesNonEmpty(d1.writer.stream, c.blockLength);
    var fill := FillSome(|d1.writer.rest|);
    RunExtends(c, steps + [NewTable], d1, h1, fill);
    FillsWhole(d1.writer.rest);
    var start, end := [NewTable] + [fill], [Publish, ClearMemtable, ClearLog];
    var h' := ListingIsRun(c, steps + [NewTable] + [fill], Next(c, d1, fill), Recall(c, d1, h1, fill));
    assert steps + [NewTable] + [fill] + end == steps + (start + end);
    assert Runs(c, steps + (start + end), WholeFlush(c, db), h');
  }

  lemma FileBytesNonEmpty(s: seq<Entry>, maxLength: int)
    ensures |FileBytes(s, maxLength)| >= 4
  {
    hide Encode, EncodeIndex, IndexFor, Flat, Blocks;
  }

  ghost predicate FlushGranted(c: Config, db: Db)
    requires db.writer.Logged?
  {
    var applied := Next(c, db, Apply);
    applied.writer.Applied? ==> Granted(c, applied, NewTable)
  }

  lemma ApplyIsRun(c: Config, steps: seq<Step>, db: Db, h: History)
    requires Runs(c, steps, db, h) && db.writer.Logged? && FlushGranted(c, db)
    ensures exists more, h' :: Runs(c, steps + more, WholeApply(c, db), h') && h'.written == h.written
  {
    hide Runs, FileBytes, Blocks, IndexFor, Encode, Ascend, TotalSize, WholeFlush;
    var d2, h2 := Next(c, db, Apply), Recall(c, db, h, Apply);
    RunExtends(c, steps, db, h, Apply);
    if d2.writer.Applied? {
      FlushIsRun(c, steps + [Apply], d2, h2);
      var more, h' :| Runs(c, (steps + [Apply]) + more, WholeFlush(c, d2), h') && h'.written == h2.written;
      assert (steps + [Apply]) + more == steps + ([Apply] + more);
    }
  }

  /** A whole write takes a run to a run: no write is left in progress, and the map of all
      writes has gained exactly this one. */
  lemma WriteIsRun(c: Config, steps: seq<Step>, db: Db, h: History, step: Step)
    requires Runs(c, steps, db, h) && (step.LogPut? || step.LogCommit?)
    requires Enabled(db, step) && Granted(c, db, step) && FlushGranted(c, Next(c, db, step))
    ensures exists more, h' :: (Runs(c, steps + more, WholeApply(c, Next(c, db, step)), h')
      && h'.written == Recall(c, db, h, step).written)
  {
    hide Runs, WholeApply, FlushGranted, EncodePut, EncodeTransaction, Record;
    var d1, h1 := Next(c, db, step), Recall(c, db, h, step);
    RunExtends(c, steps, db, h, step);
    ApplyIsRun(c, steps + [step], d1, h1);
    var more, h' :| Runs(c, (steps + [step]) + more, WholeApply(c, d1), h') && h'.written == h1.written;
    assert (steps + [step]) + more == steps + ([step] + more);
  }

  ghost predicate PutGranted(c: Config, db: Db, key: Bytes, value: Bytes)
    requires db.writer.Idle?
  {
    Granted(c, db, LogPut(key, value)) && FlushGranted(c, Next(c, db, LogPut(key, value)))
  }

  /** So does a whole put, */
  lemma PutIsRun(c: Config, steps: seq<Step>, db: Db, h: History, key: Bytes, value: Bytes) returns (more: seq<Step>, h': History)
    requires Runs(c, steps, db, h) && db.writer.Idle? && PutGranted(c, db, key, value)
    ensures Runs(c, steps + more, WholePut(c, db, key, value), h') && h'.written == h.written[key := value]
  {
    hide Runs, WholeApply, FlushGranted, Record, EncodePut;
    WriteIsRun(c, steps, db, h, LogPut(key, value));
    more, h' :| Runs(c, steps + more, WholeApply(c, Next(c, db, LogPut(key, value))), h')
      && h'.written == Recall(c, db, h, LogPut(key, value)).written;
  }

  ghost predicate CommitGranted(c: Config, db: Db, order: seq<Entry>)
    requires db.writer.Idle? && DistinctKeys(order)
  {
    Granted(c, db, LogCommit(order)) && FlushGranted(c, Next(c, db, LogCommit(order)))
  }

  /** and a whole commit, with all its writes at once. */
  lemma CommitIsRun(c: Config, steps: seq<Step>, db: Db, h: History, order: seq<Entry>) returns (more: seq<Step>, h': History)
    requires Runs(c, steps, db, h) && db.writer.Idle? && DistinctKeys(order) && CommitGranted(c, db, order)
    ensures Runs(c, steps + more, WholeCommit(c, db, order), h') && h'.written == h.written + ToTable(order)
  {
    hide Runs, WholeApply, FlushGranted, Record, EncodeTransaction, ToTable;
    WriteIsRun(c, steps, db, h, LogCommit(order));
    more, h' :| Runs(c, steps + more, WholeApply(c, Next(c, db, LogCommit(order))), h')
      && h'.written == Recall(c, db, h, LogCommit(order)).written;
  }

  /** Deleting the files of the snapshot one by one is a run that removes just these. */
  lemma {:induction false} DeletesAreRun(c: Config, steps: seq<Step>, db: Db, h: History) returns (more: seq<Step>)
    requires Runs(c, steps, db, h) && db.compactor.Deleting?
    ensures Runs(c, steps + more, db.(disk := db.disk - IdSet(db.compactor.todo), compactor := Deleting([])), h)
    decreases |db.compactor.todo|
  {
    hide Runs;
    var todo := db.compactor.todo;
    if todo == [] {
      more := [];
      assert steps + more == steps && db.disk - IdSet(todo) == db.disk;
    } else {
      RunExtends(c, steps, db, h, DeleteOne);
      var next := Next(c, db, DeleteOne);
      var rest := DeletesAreRun(c, steps + [DeleteOne], next, h);
      more := [DeleteOne] + rest;
      assert (steps + [DeleteOne]) + rest == steps + more;
      assert db.disk - {todo[0]} - IdSet(todo[1..]) == db.disk - IdSet(todo) by {
        assert IdSet(todo) == {todo[0]} + IdSet(todo[1..]);
      }
    }
  }

  /** Merging and writing the merged file, up to the swap. */
  lemma MergingIsRun(c: Config, steps: seq<Step>, db: Db, h: History) returns (more: seq<Step>, rest: Db, h': History)
    requires Runs(c, steps, db, h) && db.compactor.Marked?
    requires db.st.manifest.nextFileId !in db.disk && |Encode(MergedEntries(db.disk, db.st.files))| < U32_LIMIT
    ensures var id, s := db.st.manifest.nextFileId, MergedEntries(db.disk, db.st.files);
      rest == db.(st := TakeId(db.st), disk := db.disk[id := Contents(db.disk, id) + FileBytes(s, c.blockLength)],
                  compactor := Compacting(db.st.files, s, id, []))
    ensures Runs(c, steps + more, rest, h') && h'.written == h.written && h'.streams == h.streams && h'.stale == h.stale
  {
    hide Runs, FileBytes, MergedEntries, MergePanics, Encode;
    ListedFilesMerge(c, steps, db, h);
    var d1 := Next(c, db, TakeSnapshot);
    RunExtends(c, steps, db, h, TakeSnapshot);
    var d2 := Next(c, d1, MergeFiles);
    RunExtends(c, steps + [TakeSnapshot], d1, h, MergeFiles);
    var d3 := Next(c, d2, CreateCompacted);
    h' := Recall(c, d2, h, CreateCompacted);
    RunExtends(c, steps + [TakeSnapshot] + [MergeFiles], d2, h, CreateCompacted);
    FileBytesNonEmpty(d3.compactor.stream, c.blockLength);
    FillsWhole(d3.compactor.rest);
    var fill := CompactSome(|d3.compactor.rest|);
    rest := Next(c, d3, fill);
    RunExtends(c, steps + [TakeSnapshot] + [MergeFiles] + [CreateCompacted], d3, h', fill);
    more := [TakeSnapshot, MergeFiles, CreateCompacted, fill];
    assert steps + [TakeSnapshot] + [MergeFiles] + [CreateCompacted] + [fill] == steps + more;
  }

  /** A whole compaction is a run: it leaves what `RunCompaction` leaves and no write is lost
      or gained. */
  lemma CompactionIsRun(c: Config, steps: seq<Step>, db: Db, h: History)
    requires Runs(c, steps, db, h) && db.compactor.Marked? && db.st.Readable() && !c.storesOffsets
    requires db.st.manifest.nextFileId !in db.disk && |Encode(MergedEntries(db.disk, db.st.files))| < U32_LIMIT
    ensures exists more, h': History :: (h'.written == h.written && Runs(c, steps + more,
      db.(st := RunState(db.disk, db.st, c.blockLength), disk := RunDisk(db.disk, db.st, c.blockLength),
          saved := RunState(db.disk, db.st, c.blockLength).manifest, compactor := Resting), h'))
  {
    hide Runs, FileBytes, MergedEntries, Encode, Swap, Blocks, IndexFor, AfterSwap;
    var first, d1, h1 := MergingIsRun(c, steps, db, h);
    var d2, h2 := Next(c, d1, SwapFiles), Recall(c, d1, h1, SwapFiles);
    RunExtends(c, steps + first, d1, h1, SwapFiles);
    var deletes := DeletesAreRun(c, (steps + first) + [SwapFiles], d2, h2);
    var d3 := d2.(disk := d2.disk - IdSet(d2.compactor.todo), compactor := Deleting([]));
    RunExtends(c, (steps + first) + [SwapFiles] + deletes, d3, h2, EndCompaction);
    var more := first + [SwapFiles] + deletes + [EndCompaction];
    assert (steps + first) + [SwapFiles] + deletes + [EndCompaction] == steps + more;
    assert h2.written == h.written && Runs(c, steps + more, Next(c, d3, EndCompaction), h2);
  }

  lemma ListingDistinct(order: seq<Entry>, writes: Table)
    requires Lists(order, writes)
    ensures DistinctKeys(order)
  {
  }

  // ----- the object -----

  class DB {
    const wal: Wal
    const memTable: Memtable
    const ssTable: SsTable

    constructor (wal: Wal, memTable: Memtable, ssTable: SsTable)
      ensures this.wal == wal && this.memTable == memTable && this.ssTable == ssTable
    {
      this.wal, this.memTable, this.ssTable := wal, memTable, ssTable;
    }

    ghost predicate Valid()
      reads wal, memTable, ssTable
    {
      wal.Valid() && memTable.Valid() && ssTable.Mem().Readable()
    }

    /** The object as a state of the engine, between whole operations. */
    ghost function Snap(): Db
      reads wal, memTable, ssTable
    {
      Db(wal.file, ssTable.disk, ssTable.saved, memTable.tree, ssTable.Mem(), Idle, Resting)
    }

    ghost function Cfg(storesOffsets: bool): Config
      reads wal, ssTable
    {
      Config(wal.crc, ssTable.blockLength, storesOffsets, false)
    }

    /** `buildMemtableFromWal`: the memtable is rebuilt record by record. */
    method BuildMemtableFromWal() returns (ok: bool)
      requires wal.Valid() && wal.pos == 0 && memTable.Valid() && memTable.tree == map[]
      modifies wal`pos, memTable
      ensures wal.Valid() && memTable.Valid() && wal.file == old(wal.file)
      ensures ok <==> Replay(wal.crc, wal.file, map[]).Rebuilt?
      ensures ok ==> memTable.tree == Replay(wal.crc, wal.file, map[]).table
    {
      hide ReadRecord, DecodeCommand, ToTable, TotalSize;
      assert wal.file[0..] == wal.file;
      while true
        invariant wal.Valid() && memTable.Valid() && wal.file == old(wal.file)
        invariant Replay(wal.crc, wal.file, map[]) == Replay(wal.crc, wal.file[wal.pos..], memTable.tree)
        decreases |wal.file| - wal.pos
      {
        var r := wal.ReadEntry();
        if r.Eof? {
          return true;
        }
        if r.Failed? {
          return false;
        }
        var d := DecodeCommand(r.payload);
        if !d.Commands? {
          return false;
        }
        PutAll(d.cmds);
      }
    }

    method PutAll(cmds: seq<Entry>)
      requires memTable.Valid()
      modifies memTable
      ensures memTable.Valid() && memTable.tree == old(memTable.tree) + ToTable(cmds)
    {
      hide TotalSize;
      for i := 0 to |cmds|
        invariant memTable.Valid() && memTable.tree == old(memTable.tree) + ToTable(cmds[..i])
      {
        assert cmds[..i + 1][..i] == cmds[..i];
        memTable.Put(cmds[i].key, cmds[i].value);
      }
      assert cmds[..|cmds|] == cmds;
    }

    /** `NewDB` up to the catalog: the log, then the manifest and its files. */
    method Restart() returns (ok: bool)
      requires wal.Valid() && wal.pos == 0 && memTable.Valid() && memTable.tree == map[]
      modifies wal`pos, memTable, ssTable
      ensures ok <==> Recover(Cfg(false), old(Snap())).Some?
      ensures ok ==> Valid() && Snap() == Recover(Cfg(false), old(Snap())).value
    {
      hide Replay, OpenUpTo;
      ok := BuildMemtableFromWal();
      if ok {
        var loaded := ssTable.LoadFiles();
        ok := loaded.Ok?;
        if ok {
          OpenedReadable(ssTable.disk, ssTable.saved, |ssTable.saved.fileNames|);
        }
      }
    }

    method Get(key: Bytes) returns (r: Outcome<Bytes>)
      requires Valid()
      ensures r == DbGet(Snap(), key, SLACK_AS_WRITTEN)
    {
      hide GetUpTo;
      var value := memTable.Get(key);
      if value.Some? {
        return Ok(value.value);
      }
      r := ssTable.Get(key);
    }

    /** Flush, then clear the memtable, then the log. The result says whether the flush would
        start a compaction. */
    method FlushAndClear() returns (compact: bool)
      requires Valid()
      modifies wal, memTable, ssTable
      ensures Valid()
      ensures Snap() == WholeFlush(old(Cfg(false)), old(Snap()).(writer := Applied))
      ensures compact == (!old(ssTable.compacting) && |ssTable.firstLevelFiles| >= 4)
      ensures ssTable.compacting == old(ssTable.compacting)
    {
      hide FileBytes, Blocks, IndexFor, Encode, Ascend, TotalSize;
      var id := ssTable.NewFile();
      FillsWhole(FileBytes(Ascend(memTable.tree), ssTable.blockLength));
      ssTable.Write(id, Ascend(memTable.tree));
      compact := ssTable.ShouldRunCompaction();
      memTable.Clear();
      wal.Clear();
    }

    method Put(key: Bytes, value: Bytes) returns (compact: bool)
      requires Valid()
      modifies wal, memTable, ssTable
      ensures Valid() && Snap() == WholePut(old(Cfg(false)), old(Snap()), key, value)
    {
      hide WholeFlush, Record, EncodePut, TotalSize;
      wal.WriteEntry(EncodePut(key, value));
      ToTableSingle(Entry(key, value));
      assert memTable.tree[key := value] == memTable.tree + map[key := value];
      memTable.Put(key, value);
      compact := false;
      if memTable.ShouldFlush() {
        compact := FlushAndClear();
      }
    }

    /** `Commit` without its locks: one log record for all writes, in the order the map is
        visited in. */
    method Commit(writes: Table) returns (ghost order: seq<Entry>, compact: bool)
      requires Valid()
      modifies wal, memTable, ssTable
      ensures Lists(order, writes) && DistinctKeys(order)
      ensures Valid() && Snap() == WholeCommit(old(Cfg(false)), old(Snap()), order)
    {
      hide WholeFlush, Record, EncodeTransaction, TotalSize, ToTable, Lists, DistinctKeys;
      var buf := SerialiseTransaction(writes);
      order :| Lists(order, writes) && buf == EncodeTransaction(order);
      wal.WriteEntry(buf);
      ListingDistinct(order, writes);
      ListingReplays(order, writes);
      var applied := Ascend(writes);
      AscendTable(writes);
      PutAll(applied);
      compact := false;
      if memTable.ShouldFlush() {
        compact := FlushAndClear();
      }
    }
  }

  lemma {:induction false} OpenedReadable(disk: Disk, m: Manifest, n: nat)
    requires n <= |m.fileNames| && OpenUpTo(disk, m, n).Ok?
    ensures OpenUpTo(disk, m, n).value.Readable()
    ensures |OpenUpTo(disk, m, n).value.files| == |OpenUpTo(disk, m, n).value.indexOffsets|
  {
    hide OpenFile;
    if n > 0 {
      OpenedReadable(disk, m, n - 1);
    }
  }
}
