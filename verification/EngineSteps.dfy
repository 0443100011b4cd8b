/** Every step of the engine keeps its invariant. */
module EngineSteps {
  import opened ByteStrings
  import opened Tables
  import opened TableFormat
  import opened TableReaders
  import opened TableLookup
  import opened TableScans
  import opened WriteAheadLog
  import opened Commands
  import opened MemoryTable
  import opened Store
  import opened Compaction
  import opened Engine

  // ----- the log -----

  lemma LogOne(c: Config, db: Db, h: History, payload: Bytes, cmds: seq<Entry>, db': Db, h': History)
    requires Inv(c, db, h) && db.writer.Idle?
    requires |payload| <= MAX_PAYLOAD && DecodeCommand(payload) == Commands(cmds) && [] !in ToTable(cmds)
    requires db' == db.(wal := db.wal + Record(c.crc, payload), writer := Logged(cmds))
    requires h' == h.(payloads := h.payloads + [payload], written := h.written + ToTable(cmds))
    ensures Inv(c, db', h')
  {
    hide Record, Log, Effect, DecodeCommand, ToTable, Backed, MergedView, OffsetsAligned, CompactedStream, Pending;
    LogAppend(c.crc, h.payloads, payload);
    EffectAppend(h.payloads, payload);
    PlusAssociates(MergedView(h.streams), Effect(h.payloads), ToTable(cmds));
  }

  lemma {:induction false} NoEmptyKeyTable(cmds: seq<Entry>)
    ensures NoEmptyKey(cmds) <==> [] !in ToTable(cmds)
  {
    ToTableKeys(cmds, []);
  }

  lemma LogPutKeeps(c: Config, db: Db, h: History, key: Bytes, value: Bytes)
    requires Inv(c, db, h) && Enabled(db, LogPut(key, value)) && Granted(c, db, LogPut(key, value))
    ensures Inv(c, Next(c, db, LogPut(key, value)), Recall(c, db, h, LogPut(key, value)))
  {
    hide Inv, EncodePut, DecodeCommand, Record;
    PutRoundTrip(key, value);
    ToTableSingle(Entry(key, value));
    assert h.written[key := value] == h.written + map[key := value];
    LogOne(c, db, h, EncodePut(key, value), [Entry(key, value)],
           Next(c, db, LogPut(key, value)), Recall(c, db, h, LogPut(key, value)));
  }

  lemma LogCommitKeeps(c: Config, db: Db, h: History, order: seq<Entry>)
    requires Inv(c, db, h) && Enabled(db, LogCommit(order)) && Granted(c, db, LogCommit(order))
    ensures Inv(c, Next(c, db, LogCommit(order)), Recall(c, db, h, LogCommit(order)))
  {
    hide Inv, EncodeTransaction, DecodeCommand, Record, ToTable;
    TransactionRoundTrip(order);
    NoEmptyKeyTable(order);
    LogOne(c, db, h, EncodeTransaction(order), order,
           Next(c, db, LogCommit(order)), Recall(c, db, h, LogCommit(order)));
  }

  lemma ApplyKeeps(c: Config, db: Db, h: History)
    requires Inv(c, db, h) && Enabled(db, Apply)
    ensures Inv(c, Next(c, db, Apply), Recall(c, db, h, Apply))
  {
    hide Log, Effect, ToTable, Backed, MergedView, OffsetsAligned, CompactedStream, Pending, TotalSize;
  }

  // ----- writing files -----

  /** Only the bytes of the listed files matter to the readers. */
  lemma BackedElsewhere(disk: Disk, disk': Disk, st: State, streams: seq<seq<Entry>>, maxLength: int)
    requires Backed(disk, st, streams, maxLength)
    requires forall f :: f in st.files ==> f in disk ==> f in disk' && disk'[f] == disk[f]
    ensures Backed(disk', st, streams, maxLength)
  {
    hide FileBytes, Blocks, IndexFor, Storable;
    forall i | 0 <= i < |st.files|
      ensures BackedAt(disk', st, streams, maxLength, i)
    {
      assert BackedAt(disk, st, streams, maxLength, i);
      assert st.files[i] in st.files;
    }
  }

  /** Raising the next file number changes nothing else. */
  lemma BackedTakeId(disk: Disk, st: State, streams: seq<seq<Entry>>, maxLength: int)
    requires Backed(disk, st, streams, maxLength)
    ensures Backed(disk, TakeId(st), streams, maxLength)
  {
    hide FileBytes, Blocks, IndexFor, Storable;
    forall i | 0 <= i < |st.files|
      ensures BackedAt(disk, TakeId(st), streams, maxLength, i)
    {
      assert BackedAt(disk, st, streams, maxLength, i);
    }
  }

  lemma BackedExist(disk: Disk, st: State, streams: seq<seq<Entry>>, maxLength: int)
    requires Backed(disk, st, streams, maxLength)
    ensures forall f :: f in st.files ==> f in disk
  {
    hide FileBytes, Blocks, IndexFor, Storable;
    forall f | f in st.files
      ensures f in disk
    {
      var i :| 0 <= i < |st.files| && st.files[i] == f;
      assert BackedAt(disk, st, streams, maxLength, i);
    }
  }

  lemma AscendStorable(m: Table)
    requires [] !in m && |Encode(Ascend(m))| < U32_LIMIT
    ensures Storable(Ascend(m))
  {
    hide Encode, Ascend, Less;
    AscendSorted(m);
    AscendKeys(m);
  }

  /** A fresh name, or one that starts empty, gives a pending file with nothing in it yet. */
  lemma FreshPending(c: Config, disk: Disk, st: State, s: seq<Entry>)
    requires Storable(s) && (c.startsEmpty || st.manifest.nextFileId !in disk) && st.manifest.nextFileId !in st.files
    ensures Pending(c, Touch(disk, st.manifest.nextFileId, c.startsEmpty), TakeId(st), st.manifest.nextFileId, s, FileBytes(s, c.blockLength))
  {
    hide FileBytes, Storable;
    assert [] + FileBytes(s, c.blockLength) == FileBytes(s, c.blockLength);
  }

  lemma PendingKeeps(c: Config, disk: Disk, st: State, disk': Disk, st': State, id: FileId, s: seq<Entry>, rest: Bytes)
    requires Pending(c, disk, st, id, s, rest)
    requires id in disk' && disk'[id] == disk[id]
    requires id !in st'.files && st.manifest.nextFileId <= st'.manifest.nextFileId
    ensures Pending(c, disk', st', id, s, rest)
  {
    hide FileBytes, Storable;
  }

  lemma PendingGrows(c: Config, disk: Disk, st: State, id: FileId, s: seq<Entry>, rest: Bytes, n: nat)
    requires Pending(c, disk, st, id, s, rest) && n <= |rest|
    ensures Pending(c, disk[id := Contents(disk, id) + rest[..n]], st, id, s, rest[n..])
  {
    hide FileBytes, Storable;
    assert rest == rest[..n] + rest[n..];
    assert (disk[id] + rest[..n]) + rest[n..] == disk[id] + rest;
  }

  lemma PendingNotListed(c: Config, disk: Disk, st: State, id: FileId, s: seq<Entry>, rest: Bytes)
    requires Pending(c, disk, st, id, s, rest)
    ensures id !in st.files && id in disk && id < st.manifest.nextFileId
  {
  }

  /** The writer's pending file, if any, survives a step that leaves it alone. */
  lemma WriterKeeps(c: Config, db: Db, db': Db)
    requires WriterOk(c, db) && db'.writer == db.writer && db'.mem == db.mem
    requires db.writer.Filling? && db.writer.id in db.disk ==>
      db.writer.id in db'.disk && db'.disk[db.writer.id] == db.disk[db.writer.id]
    requires db.writer.Filling? && db.writer.id !in db.st.files ==> db.writer.id !in db'.st.files
    requires db.st.manifest.nextFileId <= db'.st.manifest.nextFileId
    ensures WriterOk(c, db')
  {
    hide Pending;
    if db.writer.Filling? {
      PendingNotListed(c, db.disk, db.st, db.writer.id, db.writer.stream, db.writer.rest);
      PendingKeeps(c, db.disk, db.st, db'.disk, db'.st, db.writer.id, db.writer.stream, db.writer.rest);
    }
  }

  /** So does the compaction's, along with everything else the compaction relies on. */
  lemma CompactorKeeps(c: Config, db: Db, h: History, db': Db)
    requires |h.streams| == |db.st.files| && CompactorOk(c, db, h)
    requires db'.compactor == db.compactor && db'.st.files == db.st.files
    requires db.compactor.Compacting? && db.compactor.id in db.disk ==>
      db.compactor.id in db'.disk && db'.disk[db.compactor.id] == db.disk[db.compactor.id]
    requires db.st.manifest.nextFileId <= db'.st.manifest.nextFileId
    ensures CompactorOk(c, db', h)
  {
    hide Pending, CompactedStream, IsPrefix;
    var k := db.compactor;
    if k.Compacting? {
      PendingNotListed(c, db.disk, db.st, k.id, k.stream, k.rest);
      PendingKeeps(c, db.disk, db.st, db'.disk, db'.st, k.id, k.stream, k.rest);
    }
  }

  /** Taking a new file number and creating the file under it. */
  lemma NewNameKeepsFiles(c: Config, db: Db, h: History, db': Db)
    requires FilesOk(c, db, h)
    requires db'.disk == Touch(db.disk, db.st.manifest.nextFileId, c.startsEmpty) && db'.st == TakeId(db.st) && db'.saved == db.saved
    ensures FilesOk(c, db', h) && db.st.manifest.nextFileId !in db.st.files
  {
    hide Backed;
    BackedShape(db.disk, db.st, h.streams, c.blockLength);
    BackedExist(db.disk, db.st, h.streams, c.blockLength);
    BackedElsewhere(db.disk, db'.disk, db.st, h.streams, c.blockLength);
    BackedTakeId(db'.disk, db.st, h.streams, c.blockLength);
  }

  lemma BackedShape(disk: Disk, st: State, streams: seq<seq<Entry>>, maxLength: int)
    requires Backed(disk, st, streams, maxLength)
    ensures st.Readable() && |streams| == |st.files| && st.manifest.fileNames == st.files
  {
  }

  /** What the invariant says of files, offsets and the compaction depends on the streams only. */
  lemma SameStreams(c: Config, db: Db, h: History, h': History)
    requires h'.streams == h.streams && h'.stale == h.stale
    ensures FilesOk(c, db, h') <==> FilesOk(c, db, h)
    ensures OffsetsOk(c, db, h') <==> OffsetsOk(c, db, h)
    ensures |h.streams| == |db.st.files| ==> (CompactorOk(c, db, h') <==> CompactorOk(c, db, h))
  {
    hide Backed, Pending, CompactedStream, OffsetsAligned;
  }

  lemma NewTableKeeps(c: Config, db: Db, h: History)
    requires Inv(c, db, h) && Enabled(db, NewTable) && Granted(c, db, NewTable)
    ensures Inv(c, Next(c, db, NewTable), Recall(c, db, h, NewTable))
  {
    hide Log, Effect, AllDecode, Readable, MergedView, CompactorOk, FilesOk, OffsetsOk, Pending, FileBytes, Ascend, Encode;
    var db', h' := Next(c, db, NewTable), Recall(c, db, h, NewTable);
    FilesLength(c, db, h);
    NewNameKeepsFiles(c, db, h, db');
    assert [] !in db.mem;
    AscendStorable(db.mem);
    FreshPending(c, db.disk, db.st, Ascend(db.mem));
    PendingApart(c, db, h);
    CompactorKeeps(c, db, h, db');
    OffsetsTakeId(c, db, h, db');
    SameStreams(c, db', h, h');
  }

  /** The compaction's file is not the one the next number names. */
  lemma PendingApart(c: Config, db: Db, h: History)
    requires |h.streams| == |db.st.files| && CompactorOk(c, db, h)
    ensures db.compactor.Compacting? ==> db.compactor.id < db.st.manifest.nextFileId
    ensures db.compactor.Deleting? ==> forall f :: f in db.compactor.todo ==> f < db.st.manifest.nextFileId
  {
    hide CompactedStream, FileBytes, Storable;
  }

  lemma OffsetsTakeId(c: Config, db: Db, h: History, db': Db)
    requires OffsetsOk(c, db, h) && db'.st == TakeId(db.st)
    ensures OffsetsOk(c, db', h)
  {
  }

  lemma FillSomeKeeps(c: Config, db: Db, h: History, n: nat)
    requires Inv(c, db, h) && Enabled(db, FillSome(n))
    ensures Inv(c, Next(c, db, FillSome(n)), Recall(c, db, h, FillSome(n)))
  {
    hide Log, Effect, ToTable, Backed, MergedView, OffsetsAligned, CompactedStream, Pending, FileBytes, Ascend, Encode;
    var db' := Next(c, db, FillSome(n));
    BackedShape(db.disk, db.st, h.streams, c.blockLength);
    PendingNotListed(c, db.disk, db.st, db.writer.id, db.writer.stream, db.writer.rest);
    BackedElsewhere(db.disk, db'.disk, db.st, h.streams, c.blockLength);
    PendingGrows(c, db.disk, db.st, db.writer.id, db.writer.stream, db.writer.rest, n);
    CompactorKeeps(c, db, h, db');
  }

  lemma CompactSomeKeeps(c: Config, db: Db, h: History, n: nat)
    requires Inv(c, db, h) && Enabled(db, CompactSome(n))
    ensures Inv(c, Next(c, db, CompactSome(n)), Recall(c, db, h, CompactSome(n)))
  {
    hide Log, Effect, ToTable, Backed, MergedView, OffsetsAligned, CompactedStream, Pending, FileBytes, Ascend, Encode;
    var db', k := Next(c, db, CompactSome(n)), db.compactor;
    BackedShape(db.disk, db.st, h.streams, c.blockLength);
    PendingNotListed(c, db.disk, db.st, k.id, k.stream, k.rest);
    BackedElsewhere(db.disk, db'.disk, db.st, h.streams, c.blockLength);
    PendingGrows(c, db.disk, db.st, k.id, k.stream, k.rest, n);
    WriterKeeps(c, db, db');
  }

  // ----- publishing a flush -----

  lemma AddFileBacked(disk: Disk, st: State, streams: seq<seq<Entry>>, maxLength: int, id: FileId, s: seq<Entry>)
    requires Backed(disk, st, streams, maxLength) && Storable(s)
    requires id in disk && disk[id] == FileBytes(s, maxLength)
    ensures Backed(disk, AddFile(st, id, IndexFor(Blocks(s, maxLength)), |Encode(s)|), streams + [s], maxLength)
  {
    hide FileBytes, Blocks, IndexFor, Storable, Encode;
    var st' := AddFile(st, id, IndexFor(Blocks(s, maxLength)), |Encode(s)|);
    forall i | 0 <= i < |st'.files|
      ensures BackedAt(disk, st', streams + [s], maxLength, i)
    {
      if i < |st.files| {
        assert BackedAt(disk, st, streams, maxLength, i);
      }
    }
  }

  lemma AddFileOffsets(st: State, streams: seq<seq<Entry>>, id: FileId, index: seq<IndexEntry>, s: seq<Entry>)
    requires |streams| == |st.files| == |st.indexOffsets| && OffsetsAligned(st, streams)
    ensures OffsetsAligned(AddFile(st, id, index, |Encode(s)|), streams + [s])
  {
    hide Encode;
  }

  lemma AddFileView(streams: seq<seq<Entry>>, mem: Table)
    ensures MergedView(streams + [Ascend(mem)]) == MergedView(streams) + mem
  {
    hide MergedView, Ascend, ToTable;
    MergedViewConcat(streams, [Ascend(mem)]);
    MergedViewSingle(Ascend(mem));
    AscendTable(mem);
  }

  lemma PrefixGrows(snapshot: seq<FileId>, files: seq<FileId>, id: FileId)
    requires IsPrefix(snapshot, files)
    ensures IsPrefix(snapshot, files + [id])
  {
    assert (files + [id])[..|snapshot|] == files[..|snapshot|];
  }

  lemma CompactedStreamGrows(streams: seq<seq<Entry>>, s: seq<Entry>, n: nat)
    requires n <= |streams|
    ensures CompactedStream(streams + [s], n) == CompactedStream(streams, n)
  {
    assert (streams + [s])[..n] == streams[..n];
  }

  lemma PublishFiles(c: Config, db: Db, h: History)
    requires Inv(c, db, h) && Enabled(db, Publish)
    ensures FilesOk(c, Next(c, db, Publish), Recall(c, db, h, Publish))
  {
    hide Backed, FileBytes, Storable, Blocks, IndexFor, Encode, Ascend, ViewOk, LogOk, OffsetsOk, CompactorOk, Apart;
    BackedShape(db.disk, db.st, h.streams, c.blockLength);
    var w := db.writer;
    assert db.disk[w.id] + [] == db.disk[w.id];
    AddFileBacked(db.disk, db.st, h.streams, c.blockLength, w.id, w.stream);
  }

  lemma PublishShape(c: Config, db: Db, h: History)
    requires Enabled(db, Publish)
    ensures Next(c, db, Publish).writer.Published? && Next(c, db, Publish).mem == db.mem
    ensures Recall(c, db, h, Publish) == h.(streams := h.streams + [db.writer.stream])
  {
    hide Blocks, IndexFor, Encode, AddFile;
  }

  lemma PublishView(c: Config, db: Db, h: History)
    requires WriterOk(c, db) && ViewOk(db, h) && Enabled(db, Publish)
    ensures ViewOk(Next(c, db, Publish), Recall(c, db, h, Publish))
  {
    hide Effect, Ascend, Pending, MergedView, Next, Recall;
    PublishShape(c, db, h);
    AddFileView(h.streams, db.mem);
    PlusTwice(MergedView(h.streams), db.mem);
  }

  lemma PlusTwice(a: Table, b: Table)
    ensures (a + b) + b == a + b
  {
  }

  lemma PublishOffsets(c: Config, db: Db, h: History)
    requires Inv(c, db, h) && Enabled(db, Publish)
    ensures OffsetsOk(c, Next(c, db, Publish), Recall(c, db, h, Publish))
  {
    hide Backed, Blocks, IndexFor, Encode, LogOk, CompactorOk, Apart, Pending, ViewOk, Ascend, OffsetsAligned;
    BackedShape(db.disk, db.st, h.streams, c.blockLength);
    var w := db.writer;
    if !h.stale {
      AddFileOffsets(db.st, h.streams, w.id, IndexFor(Blocks(w.stream, c.blockLength)), w.stream);
    }
  }

  lemma PublishCompactor(c: Config, db: Db, h: History)
    requires Inv(c, db, h) && Enabled(db, Publish)
    ensures |Recall(c, db, h, Publish).streams| == |Next(c, db, Publish).st.files|
    ensures CompactorOk(c, Next(c, db, Publish), Recall(c, db, h, Publish))
  {
    hide Backed, Blocks, IndexFor, Encode, LogOk, Pending, ViewOk, OffsetsOk, CompactedStream, IsPrefix, Ascend;
    BackedShape(db.disk, db.st, h.streams, c.blockLength);
    var w, k, db' := db.writer, db.compactor, Next(c, db, Publish);
    PendingNotListed(c, db.disk, db.st, w.id, w.stream, w.rest);
    if k.Snapped? || k.MergedInto? || k.Compacting? {
      PrefixGrows(k.snapshot, db.st.files, w.id);
      PrefixShort(k.snapshot, db.st.files);
      CompactedStreamGrows(h.streams, w.stream, |k.snapshot|);
    }
    if k.Compacting? {
      PendingNotListed(c, db.disk, db.st, k.id, k.stream, k.rest);
      PendingKeeps(c, db.disk, db.st, db'.disk, db'.st, k.id, k.stream, k.rest);
    }
  }

  lemma PrefixShort(snapshot: seq<FileId>, files: seq<FileId>)
    requires IsPrefix(snapshot, files)
    ensures |snapshot| <= |files|
  {
  }

  lemma PublishKeeps(c: Config, db: Db, h: History)
    requires Inv(c, db, h) && Enabled(db, Publish)
    ensures Inv(c, Next(c, db, Publish), Recall(c, db, h, Publish))
  {
    hide FilesOk, ViewOk, OffsetsOk, CompactorOk, Log, AllDecode, Readable, Pending, Blocks, IndexFor, Encode;
    PublishCompactor(c, db, h);
    PublishFiles(c, db, h);
    PublishView(c, db, h);
    PublishOffsets(c, db, h);
  }

  lemma ClearMemtableKeeps(c: Config, db: Db, h: History)
    requires Inv(c, db, h) && Enabled(db, ClearMemtable)
    ensures Inv(c, Next(c, db, ClearMemtable), Recall(c, db, h, ClearMemtable))
  {
    hide Log, Effect, ToTable, Backed, MergedView, OffsetsAligned, CompactedStream, Pending;
  }

  lemma EmptyLog(c: Config)
    ensures Log(c.crc, []) == [] && Effect([]) == map[]
  {
  }

  lemma ClearLogKeeps(c: Config, db: Db, h: History)
    requires Inv(c, db, h) && Enabled(db, ClearLog)
    ensures Inv(c, Next(c, db, ClearLog), Recall(c, db, h, ClearLog))
  {
    hide FilesOk, WriterOk, MergedView, OffsetsOk, Log, Effect, CompactedStream, Pending, DecodeCommand, IsPrefix;
    EmptyLog(c);
    assert MergedView(h.streams) + map[] == MergedView(h.streams);
    ClearLogQuiet(c, db, h);
  }

  lemma ClearLogQuiet(c: Config, db: Db, h: History)
    requires Inv(c, db, h) && Enabled(db, ClearLog)
    ensures FilesOk(c, Next(c, db, ClearLog), Recall(c, db, h, ClearLog))
    ensures WriterOk(c, Next(c, db, ClearLog)) && OffsetsOk(c, Next(c, db, ClearLog), Recall(c, db, h, ClearLog))
  {
    hide Backed, Pending, OffsetsAligned, LogOk, ViewOk, CompactorOk, Distinct;
  }

  // ----- the compaction -----

  lemma QuietStepKeeps(c: Config, db: Db, h: History, step: Step)
    requires Inv(c, db, h) && Enabled(db, step)
    requires step.StartCompaction? || step.TakeSnapshot? || step.EndCompaction?
    ensures Inv(c, Next(c, db, step), Recall(c, db, h, step))
  {
    hide Log, Effect, ToTable, Backed, MergedView, OffsetsAligned, CompactedStream, Pending;
    BackedShape(db.disk, db.st, h.streams, c.blockLength);
    assert db.st.files[..|db.st.files|] == db.st.files;
  }

  /** The merge of a snapshot is the newest-wins merge of its files, whatever has been
      flushed since. */
  lemma MergeOfSnapshot(disk: Disk, st: State, streams: seq<seq<Entry>>, maxLength: int, snapshot: seq<FileId>)
    requires Backed(disk, st, streams, maxLength) && IsPrefix(snapshot, st.files)
    ensures MergedEntries(disk, snapshot) == CompactedStream(streams, |snapshot|)
    ensures !MergePanics(disk, snapshot)
  {
    hide FileBytes, Blocks, IndexFor, Storable, CompactedUpTo, MergedView, Ascend;
    var n := |snapshot|;
    forall i | 0 <= i < n
      ensures Storable(streams[i]) && snapshot[i] in disk && disk[snapshot[i]] == FileBytes(streams[i], maxLength)
    {
      assert BackedAt(disk, st, streams, maxLength, i);
      assert snapshot[i] == st.files[..n][i];
    }
    CompactedSpec(disk, snapshot, streams[..n], maxLength, n);
    assert streams[..n][..n] == streams[..n];
  }

  /** In every reachable state the files listed, and so any snapshot of them, can be merged. */
  lemma ListedFilesMerge(c: Config, steps: seq<Step>, db: Db, h: History)
    requires Runs(c, steps, db, h)
    ensures !MergePanics(db.disk, db.st.files)
    ensures db.compactor.Snapped? ==> !MergePanics(db.disk, db.compactor.snapshot)
  {
    hide Runs, LogOk, ViewOk, OffsetsOk, WriterOk, Apart, Backed, MergePanics, CompactedStream, Distinct;
    RunsKeep(c, steps, db, h);
    assert db.st.files[..|db.st.files|] == db.st.files;
    BackedShape(db.disk, db.st, h.streams, c.blockLength);
    MergeOfSnapshot(db.disk, db.st, h.streams, c.blockLength, db.st.files);
    if db.compactor.Snapped? {
      MergeOfSnapshot(db.disk, db.st, h.streams, c.blockLength, db.compactor.snapshot);
    }
  }

  lemma MergeFilesKeeps(c: Config, db: Db, h: History)
    requires Inv(c, db, h) && Enabled(db, MergeFiles)
    ensures Inv(c, Next(c, db, MergeFiles), Recall(c, db, h, MergeFiles))
  {
    hide Log, Effect, ToTable, Backed, MergedView, OffsetsAligned, CompactedStream, Pending, MergedEntries;
    BackedShape(db.disk, db.st, h.streams, c.blockLength);
    MergeOfSnapshot(db.disk, db.st, h.streams, c.blockLength, db.compactor.snapshot);
  }

  lemma CompactedKeys(streams: seq<seq<Entry>>, n: nat, written: Table, above: Table)
    requires n <= |streams| && MergedView(streams) + above == written && [] !in written
    requires |Encode(CompactedStream(streams, n))| < U32_LIMIT
    ensures Storable(CompactedStream(streams, n))
  {
    hide MergedView, Ascend, Encode, Storable;
    MergedViewConcat(streams[..n], streams[n..]);
    assert streams == streams[..n] + streams[n..];
    AscendStorable(MergedView(streams[..n]));
  }

  lemma CompactedStorable(c: Config, db: Db, h: History, n: nat)
    requires LogOk(c, db, h) && ViewOk(db, h) && n <= |h.streams|
    requires |Encode(CompactedStream(h.streams, n))| < U32_LIMIT
    ensures Storable(CompactedStream(h.streams, n))
  {
    hide MergedView, Effect, Encode, Storable, CompactedStream, Log, AllDecode, Readable;
    CompactedKeys(h.streams, n, h.written, Effect(h.payloads));
  }

  lemma CreateCompactor(c: Config, db: Db, h: History)
    requires Inv(c, db, h) && Enabled(db, CreateCompacted) && Granted(c, db, CreateCompacted)
    ensures |h.streams| == |Next(c, db, CreateCompacted).st.files|
    ensures CompactorOk(c, Next(c, db, CreateCompacted), h)
  {
    hide LogOk, ViewOk, OffsetsOk, WriterOk, Apart, CompactedStream, Pending, FileBytes, Encode, IsPrefix, Backed;
    BackedShape(db.disk, db.st, h.streams, c.blockLength);
    PrefixShort(db.compactor.snapshot, db.st.files);
    CompactedStorable(c, db, h, |db.compactor.snapshot|);
    NewNameKeepsFiles(c, db, h, Next(c, db, CreateCompacted));
    FreshPending(c, db.disk, db.st, db.compactor.stream);
  }

  lemma CreateCompactedView(c: Config, db: Db, h: History)
    requires LogOk(c, db, h) && ViewOk(db, h) && Enabled(db, CreateCompacted)
    ensures LogOk(c, Next(c, db, CreateCompacted), Recall(c, db, h, CreateCompacted))
    ensures ViewOk(Next(c, db, CreateCompacted), Recall(c, db, h, CreateCompacted))
  {
    hide Log, AllDecode, Readable, Effect, MergedView, FileBytes, ToTable;
  }

  lemma CreateCompactedKeeps(c: Config, db: Db, h: History)
    requires Inv(c, db, h) && Enabled(db, CreateCompacted) && Granted(c, db, CreateCompacted)
    ensures Inv(c, Next(c, db, CreateCompacted), Recall(c, db, h, CreateCompacted))
  {
    hide LogOk, ViewOk, CompactorOk, FilesOk, OffsetsOk, Pending, FileBytes, Ascend, Encode;
    var db' := Next(c, db, CreateCompacted);
    CreateCompactedView(c, db, h);
    CreateCompactor(c, db, h);
    NewNameKeepsFiles(c, db, h, db');
    if db.writer.Filling? {
      PendingNotListed(c, db.disk, db.st, db.writer.id, db.writer.stream, db.writer.rest);
    }
    WriterKeeps(c, db, db');
    OffsetsTakeId(c, db, h, db');
    SameStreams(c, db', h, Recall(c, db, h, CreateCompacted));
  }

  /** What the swap may rely on. */
  lemma SwapGiven(c: Config, db: Db, h: History)
    requires |h.streams| == |db.st.files| && FilesOk(c, db, h) && CompactorOk(c, db, h) && Enabled(db, SwapFiles)
    ensures var k, n := db.compactor, |db.compactor.snapshot|;
      && 1 <= n <= |h.streams| == |db.st.files| && k.snapshot == db.st.files[..n]
      && k.stream == CompactedStream(h.streams, n) && Storable(k.stream)
      && k.id in db.disk && db.disk[k.id] == FileBytes(k.stream, c.blockLength)
      && k.id !in db.st.files && k.id < db.st.manifest.nextFileId
  {
    hide FileBytes, Storable, CompactedStream, FilesOk, LogOk, ViewOk, OffsetsOk, WriterOk, Apart;
    FilesLength(c, db, h);
    assert db.disk[db.compactor.id] + [] == db.disk[db.compactor.id];
  }

  lemma FilesLength(c: Config, db: Db, h: History)
    requires FilesOk(c, db, h)
    ensures |h.streams| == |db.st.files| && db.st.Readable()
  {
    hide BackedAt, Distinct;
  }

  /** What it leaves: the merged file first, then everything after the snapshot. */
  lemma SwapResult(c: Config, db: Db)
    requires Enabled(db, SwapFiles) && Distinct(db.st.files)
    requires |db.compactor.snapshot| <= |db.st.files| && db.compactor.snapshot == db.st.files[..|db.compactor.snapshot|]
    ensures Next(c, db, SwapFiles).st.files == [db.compactor.id] + db.st.files[|db.compactor.snapshot|..]
    ensures Next(c, db, SwapFiles).st.manifest.nextFileId == db.st.manifest.nextFileId
  {
    hide Blocks, IndexFor, Encode, Swap, Distinct;
    var k := db.compactor;
    SwapOfPrefix(db.st, |k.snapshot|, k.id, IndexFor(Blocks(k.stream, c.blockLength)), |Encode(k.stream)|, c.storesOffsets);
  }

  lemma DistinctAfter(files: seq<FileId>, n: nat, id: FileId)
    requires Distinct(files) && n <= |files| && id !in files
    ensures Distinct([id] + files[n..])
    ensures forall f :: f in [id] + files[n..] ==> f == id || f in files
    ensures forall f :: f in files[..n] ==> f !in [id] + files[n..]
  {
  }

  lemma SwapFilesOk(c: Config, db: Db, h: History)
    requires Inv(c, db, h) && Enabled(db, SwapFiles)
    ensures FilesOk(c, Next(c, db, SwapFiles), Recall(c, db, h, SwapFiles))
  {
    hide Backed, FileBytes, Storable, Blocks, IndexFor, Encode, Swap, CompactedStream, LogOk, ViewOk, OffsetsOk,
      WriterOk, Apart, CompactorOk, Distinct;
    FilesLength(c, db, h);
    SwapGiven(c, db, h);
    SwapResult(c, db);
    var k, n := db.compactor, |db.compactor.snapshot|;
    DistinctAfter(db.st.files, n, k.id);
    SwapKeepsBacking(db.disk, db.st, h.streams, c.blockLength, n, k.id, c.storesOffsets);
    BackedShape(db.disk, Next(c, db, SwapFiles).st, AfterSwap(h.streams, n), c.blockLength);
  }

  lemma SwapOffsetsOk(c: Config, db: Db, h: History)
    requires Inv(c, db, h) && Enabled(db, SwapFiles)
    ensures OffsetsOk(c, Next(c, db, SwapFiles), Recall(c, db, h, SwapFiles))
  {
    hide Backed, FileBytes, Storable, Blocks, IndexFor, Encode, Swap, CompactedStream, LogOk, ViewOk,
      WriterOk, Apart, CompactorOk, OffsetsAligned;
    FilesLength(c, db, h);
    SwapGiven(c, db, h);
    SwapResult(c, db);
    if c.storesOffsets {
      SwapKeepsOffsets(db.disk, db.st, h.streams, c.blockLength, |db.compactor.snapshot|, db.compactor.id);
    }
  }

  lemma SwapRest(c: Config, db: Db, h: History)
    requires Inv(c, db, h) && Enabled(db, SwapFiles)
    ensures var db', h' := Next(c, db, SwapFiles), Recall(c, db, h, SwapFiles);
      && WriterOk(c, db') && Apart(db')
      && |h'.streams| == |db'.st.files| && CompactorOk(c, db', h')
  {
    hide Backed, FileBytes, Storable, Blocks, IndexFor, Encode, Swap, CompactedStream, LogOk, ViewOk, OffsetsOk, Pending, Ascend;
    FilesLength(c, db, h);
    SwapGiven(c, db, h);
    SwapResult(c, db);
    var k, n, db' := db.compactor, |db.compactor.snapshot|, Next(c, db, SwapFiles);
    DistinctAfter(db.st.files, n, k.id);
    forall f | f in k.snapshot
      ensures f < db.st.manifest.nextFileId
    {
      assert f in db.st.files;
    }
    if db.writer.Filling? {
      PendingNotListed(c, db.disk, db.st, db.writer.id, db.writer.stream, db.writer.rest);
      assert db.writer.id !in db.st.files[..n];
    }
    WriterKeeps(c, db, db');
  }

  lemma SwapFilesKeeps(c: Config, db: Db, h: History)
    requires Inv(c, db, h) && Enabled(db, SwapFiles)
    ensures Inv(c, Next(c, db, SwapFiles), Recall(c, db, h, SwapFiles))
  {
    hide FilesOk, OffsetsOk, CompactorOk, WriterOk, Apart, Log, AllDecode, Readable, Effect, MergedView, Swap, AfterSwap,
      Blocks, IndexFor, Encode, Storable, FileBytes;
    FilesLength(c, db, h);
    SwapGiven(c, db, h);
    SwapFilesOk(c, db, h);
    SwapOffsetsOk(c, db, h);
    SwapRest(c, db, h);
    SwapKeepsView(h.streams, |db.compactor.snapshot|);
  }

  lemma DeleteOneKeeps(c: Config, db: Db, h: History)
    requires Inv(c, db, h) && Enabled(db, DeleteOne)
    ensures Inv(c, Next(c, db, DeleteOne), Recall(c, db, h, DeleteOne))
  {
    hide Log, Effect, ToTable, Backed, MergedView, OffsetsAligned, AllDecode, Readable, WriterOk;
    var db', gone := Next(c, db, DeleteOne), db.compactor.todo[0];
    BackedShape(db.disk, db.st, h.streams, c.blockLength);
    assert gone in db.compactor.todo && gone !in db.st.files;
    BackedElsewhere(db.disk, db'.disk, db.st, h.streams, c.blockLength);
    WriterKeeps(c, db, db');
  }

  // ----- crash and restart -----

  /** Restarting in any state of any run succeeds, and what it rebuilds stands for exactly the
      logged writes: a command in flight is there wholly if its record was written, and not at
      all otherwise. */
  lemma RecoverSpec(c: Config, db: Db, h: History)
    requires Inv(c, db, h)
    ensures Recover(c, db) == Some(Db(db.wal, db.disk, db.saved, Effect(h.payloads),
      State(db.st.files, db.st.indexBlocks, OffsetsOf(h.streams), db.saved), Idle, Resting))
    ensures MergedView(h.streams) + Effect(h.payloads) == h.written
  {
    hide Log, Effect, Backed, MergedView, OffsetsAligned, AllDecode, Readable, OpenUpTo, Replay, WriterOk, CompactorOk, Apart,
      OffsetsOk, OffsetsOf;
    ReplayLog(c.crc, h.payloads);
    ReopenSaved(c, db, h);
  }

  lemma ReopenSaved(c: Config, db: Db, h: History)
    requires FilesOk(c, db, h)
    ensures OpenUpTo(db.disk, db.saved, |db.saved.fileNames|) ==
      Ok(State(db.st.files, db.st.indexBlocks, OffsetsOf(h.streams), db.saved))
  {
    hide OpenUpTo, FileBytes, Blocks, IndexFor, Storable, OffsetsOf, IndexesOf, Encode;
    forall i | 0 <= i < |h.streams|
      ensures Storable(h.streams[i]) && db.st.files[i] in db.disk
        && db.disk[db.st.files[i]] == FileBytes(h.streams[i], c.blockLength)
    {
      assert BackedAt(db.disk, db.st, h.streams, c.blockLength, i);
    }
    OpenUpToSpec(db.disk, db.saved, h.streams, c.blockLength, |h.streams|);
    assert db.st.files[..|db.st.files|] == db.st.files && h.streams[..|h.streams|] == h.streams;
    IndexBlocksAre(db.disk, db.st, h.streams, c.blockLength);
  }

  lemma IndexBlocksAre(disk: Disk, st: State, streams: seq<seq<Entry>>, maxLength: int)
    requires Backed(disk, st, streams, maxLength)
    ensures st.indexBlocks == IndexesOf(streams, maxLength)
  {
    hide FileBytes, Blocks, IndexFor, Storable;
    forall i | 0 <= i < |st.files|
      ensures st.indexBlocks[i] == IndexesOf(streams, maxLength)[i]
    {
      assert BackedAt(disk, st, streams, maxLength, i);
    }
  }

  lemma ReopenedBacked(disk: Disk, st: State, streams: seq<seq<Entry>>, maxLength: int, saved: Manifest)
    requires Backed(disk, st, streams, maxLength) && saved.fileNames == st.files
    ensures Backed(disk, State(st.files, st.indexBlocks, OffsetsOf(streams), saved), streams, maxLength)
    ensures OffsetsAligned(State(st.files, st.indexBlocks, OffsetsOf(streams), saved), streams)
  {
    hide FileBytes, Blocks, IndexFor, Storable, Encode;
    var st' := State(st.files, st.indexBlocks, OffsetsOf(streams), saved);
    forall i | 0 <= i < |st.files|
      ensures BackedAt(disk, st', streams, maxLength, i)
    {
      assert BackedAt(disk, st, streams, maxLength, i);
    }
  }

  lemma CrashKeeps(c: Config, db: Db, h: History)
    requires Inv(c, db, h)
    ensures Inv(c, Next(c, db, Crash), Recall(c, db, h, Crash))
  {
    hide Log, Effect, Backed, MergedView, OffsetsAligned, AllDecode, Readable, Recover, WriterOk, CompactorOk, OffsetsOf;
    BackedShape(db.disk, db.st, h.streams, c.blockLength);
    RecoverSpec(c, db, h);
    ReopenedBacked(db.disk, db.st, h.streams, c.blockLength, db.saved);
    BackedShape(db.disk, Next(c, db, Crash).st, h.streams, c.blockLength);
    RestartIsQuiet(c, Next(c, db, Crash), h);
    OffsetsOfLength(h.streams);
  }

  lemma OffsetsOfLength(streams: seq<seq<Entry>>)
    ensures |OffsetsOf(streams)| == |streams|
  {
  }

  lemma RestartIsQuiet(c: Config, db: Db, h: History)
    requires db.writer.Idle? && db.compactor.Resting? && |h.streams| == |db.st.files|
    ensures WriterOk(c, db) && CompactorOk(c, db, h) && CompactorOk(c, db, Recall(c, db, h, Crash))
  {
  }

  // ----- all steps -----

  lemma EveryStepKeeps(c: Config, db: Db, h: History, step: Step)
    requires Inv(c, db, h) && Enabled(db, step) && Granted(c, db, step)
    ensures Inv(c, Next(c, db, step), Recall(c, db, h, step))
  {
    hide Inv, Next, Recall, Enabled, Granted;
    match step
    case LogPut(key, value) => LogPutKeeps(c, db, h, key, value);
    case LogCommit(order) => LogCommitKeeps(c, db, h, order);
    case Apply => ApplyKeeps(c, db, h);
    case NewTable => NewTableKeeps(c, db, h);
    case FillSome(n) => FillSomeKeeps(c, db, h, n);
    case Publish => PublishKeeps(c, db, h);
    case ClearMemtable => ClearMemtableKeeps(c, db, h);
    case ClearLog => ClearLogKeeps(c, db, h);
    case MergeFiles => MergeFilesKeeps(c, db, h);
    case CreateCompacted => CreateCompactedKeeps(c, db, h);
    case CompactSome(n) => CompactSomeKeeps(c, db, h, n);
    case SwapFiles => SwapFilesKeeps(c, db, h);
    case DeleteOne => DeleteOneKeeps(c, db, h);
    case Crash => CrashKeeps(c, db, h);
    case _ => QuietStepKeeps(c, db, h, step);
  }

  lemma StartsWell(c: Config)
    ensures Inv(c, EMPTY_DB, NO_HISTORY)
  {
    var none: Table := map[];
    assert none + none == none;
  }

  lemma {:induction false} RunsKeep(c: Config, steps: seq<Step>, db: Db, h: History)
    requires Runs(c, steps, db, h)
    ensures Inv(c, db, h)
    decreases |steps|
  {
    hide Inv, Next, Recall, Enabled, Granted;
    if steps == [] {
      StartsWell(c);
    } else {
      var db0, h0 :| RunsTo(c, steps, db0, h0, db, h);
      RunsKeep(c, steps[..|steps| - 1], db0, h0);
      EveryStepKeeps(c, db0, h0, steps[|steps| - 1]);
    }
  }
}
