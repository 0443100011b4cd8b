/** A run of the engine as written up to a crash in the middle of a flush, and what the next flush
    onto the left-over name does to the store (sstable/sstable.go). */
module LeftoverRuns {
  import opened ByteStrings
  import opened Tables
  import opened TableFormat
  import opened TableReaders
  import opened TableLookup
  import opened TableScans
  import opened StaleOffsets
  import opened WriteAheadLog
  import opened Commands
  import opened MemoryTable
  import opened Store
  import opened Compaction
  import opened Engine
  import opened EngineSteps
  import opened EngineTheorems
  import opened Database
  import opened ExampleRuns

  /** One byte left over is enough: with a value that does not end in zero, the file written
      behind it panics when it is opened. */
  lemma OneByteLeft(b: byte, v: Bytes)
    requires Fills(v) && v[|v| - 1] != 0
    ensures OpenFile([b] + FileBytes([Row(1, v)], DEFAULT_BLOCK_LENGTH)) == Panic
  {
    hide Encode, FileBytes, U32, ReadU32, EncodeIndex, Blocks, Storable;
    var s, e := [Row(1, v)], Row(1, v);
    BigLength(e);
    NamedFile(s, DEFAULT_BLOCK_LENGTH);
    LastBigBlock(s);
    OneIndexEntry(e);
    var file, data := [b] + FileBytes(s, DEFAULT_BLOCK_LENGTH), Encode(s);
    FooterOfFile(s, DEFAULT_BLOCK_LENGTH);
    var whole := FileBytes(s, DEFAULT_BLOCK_LENGTH);
    assert file[|file| - 4..] == whole[|whole| - 4..];
    LastByte(e);
    var buf := file[|data|..|file| - 4];
    assert buf == [v[|v| - 1]] + EncodeIndex(IndexFor(Blocks(s, DEFAULT_BLOCK_LENGTH)));
    assert buf[..4] == [v[|v| - 1], 0, 0, 0];
    BigLengthField(v[|v| - 1]);
  }

  lemma LastByte(e: Entry)
    requires e.value != []
    ensures EncodeEntry(e)[|EncodeEntry(e)| - 1] == e.value[|e.value| - 1]
  {
  }

  lemma OneIndexEntry(e: Entry)
    requires |e.key| == 1
    ensures |EncodeIndex(IndexFor([[e]]))| == 9 && EncodeIndex(IndexFor([[e]]))[..3] == [0, 0, 0]
  {
    hide Encode;
    assert [[e]][..0] == [] && Flat([]) == [];
    EncodeNone();
    assert IndexFor([[e]]) == [IndexEntry(e.key, 0)];
    assert EncodeIndex([IndexEntry(e.key, 0)]) == EncodeIndexEntry(IndexEntry(e.key, 0)) + EncodeIndex([]);
    assert U32(1) == [0, 0, 0, 1];
  }

  lemma BigLengthField(x: byte)
    requires x != 0
    ensures ReadU32([x, 0, 0, 0]) >= 0x100_0000
  {
  }

  /** The first byte of the first flush. */
  lemma FlushBegins(crc: Checksum, steps: seq<Step>, db: Db, h: History, v: Bytes) returns (more: seq<Step>, db': Db, h': History)
    requires Fills(v) && Runs(AsWritten(crc), steps, db, h)
    requires db == EMPTY_DB.(wal := db.wal, mem := ToTable([Row(1, v)]), writer := Applied)
    ensures Runs(AsWritten(crc), steps + more, db', h') && h'.streams == h.streams && h'.written == h.written
    ensures db'.saved == Manifest(0, []) && db'.disk == map[0 := FileBytes([Row(1, v)], DEFAULT_BLOCK_LENGTH)[..1]]
  {
    hide Runs, ToTable, FileBytes, Encode, Ascend, Sorted, NoEmptyKey;
    var c, s := AsWritten(crc), [Row(1, v)];
    BigLength(Row(1, v));
    AscendIs(s);
    RunExtends(c, steps, db, h, NewTable);
    var d3, h3 := Next(c, db, NewTable), Recall(c, db, h, NewTable);
    FileBytesNonEmpty(s, c.blockLength);
    RunExtends(c, steps + [NewTable], d3, h3, FillSome(1));
    db', h' := Next(c, d3, FillSome(1)), Recall(c, d3, h3, FillSome(1));
    more := [NewTable, FillSome(1)];
    assert steps + [NewTable] + [FillSome(1)] == steps + more;
    assert d3.disk == map[0 := []] && [] + FileBytes(s, c.blockLength)[..1] == FileBytes(s, c.blockLength)[..1];
  }

  /** The store stopped after the first byte of its first flush, was started again, and took one
      more put, which was flushed onto what was left over: the put was acknowledged, and no start
      after it opens the file. */
  lemma LeftoverShutsStore(crc: Checksum, v: Bytes, w: Bytes) returns (steps: seq<Step>, db: Db, h: History)
    requires Fills(v) && Fills(w) && w[|w| - 1] != 0
    ensures Runs(AsWritten(crc), steps, db, h) && db.writer.Idle? && h.written == map[[1] := v]
    ensures Recover(AsWritten(crc), WholePut(AsWritten(crc), db, [1], w)) == None
  {
    hide Runs, ToTable, FillsWith, EncodePut, FileBytes, Encode, Storable, Recover, WholePut, TotalSize, Ascend, Next;
    var c, s := AsWritten(crc), [Row(1, v)];
    RunsFromNothing(c);
    BigFills(Row(1, v));
    BigLength(Row(1, v));
    var d2, h2 := WriteIsApplied(c, [], EMPTY_DB, NO_HISTORY, LogPut([1], v), s);
    var applied := [] + [LogPut([1], v)] + [Apply];
    var more, d4, h4 := FlushBegins(crc, applied, d2, h2, v);
    ToTableSingle(Row(1, v));
    assert map[] + ToTable(s) == ToTable(s);
    FileBytesNonEmpty(s, c.blockLength);
    AfterCrash(c, applied + more, d4, h4);
    StartedOnLeftover(c, applied + more, d4, h4, v);
    steps, db, h := applied + more + [Crash], Recover(c, d4).value, Recall(c, d4, h4, Crash);
    var b := FileBytes(s, c.blockLength)[0];
    assert FileBytes(s, c.blockLength)[..1] == [b];
    PutOnLeftover(crc, db, b, v, w);
  }

  lemma StartedOnLeftover(c: Config, steps: seq<Step>, db: Db, h: History, v: Bytes)
    requires Runs(c, steps, db, h) && h.streams == [] && h.written == map[[1] := v] && db.saved == Manifest(0, [])
    ensures Recover(c, db).Some?
    ensures Recover(c, db).value == Db(db.wal, db.disk, db.saved, map[[1] := v], State([], [], [], db.saved), Idle, Resting)
  {
    hide Runs, Recover, Effect, Backed, LogOk, OffsetsOk, WriterOk, CompactorOk, Apart, MergedView, Distinct;
    RunsKeep(c, steps, db, h);
    BackedShape(db.disk, db.st, h.streams, c.blockLength);
    RecoverSpec(c, db, h);
    EmptyView(h.streams);
    assert map[] + Effect(h.payloads) == Effect(h.payloads);
    assert OffsetsOf([]) == [];
  }

  lemma PutOnLeftover(crc: Checksum, db: Db, b: byte, v: Bytes, w: Bytes)
    requires Fills(w) && w[|w| - 1] != 0
    requires db == Db(db.wal, map[0 := [b]], Manifest(0, []), map[[1] := v], State([], [], [], Manifest(0, [])), Idle, Resting)
    ensures Recover(AsWritten(crc), WholePut(AsWritten(crc), db, [1], w)) == None
  {
    hide ToTable, EncodePut, Record, FileBytes, Encode, TotalSize, Ascend, OpenFile, Blocks, IndexFor, Storable, FillsWith;
    var c, s := AsWritten(crc), [Row(1, w)];
    ToTableSingle(Row(1, w));
    BigFills(Row(1, w));
    BigLength(Row(1, w));
    EnoughToFlush(w);
    AscendIs(s);
    assert db.mem + map[[1] := w] == map[[1] := w];
    var bytes := FileBytes(s, DEFAULT_BLOCK_LENGTH);
    FillsWhole(bytes);
    var d := WholePut(c, db, [1], w);
    assert d.disk == map[0 := [b] + bytes] && d.saved == Manifest(1, [0]) && d.wal == [];
    OneByteLeft(b, w);
    NothingLogged(crc);
    OpensOnePanic(d.disk, d.saved);
  }

  lemma EnoughToFlush(w: Bytes)
    requires FillsWith(LogPut([1], w), [Row(1, w)])
    ensures TotalSize(map[[1] := w]) >= SIZE_LIMIT
  {
    hide TotalSize, Encode;
    ToTableSingle(Row(1, w));
  }

  lemma NothingLogged(crc: Checksum)
    ensures Replay(crc, [], map[]) == Rebuilt(map[])
  {
  }

  lemma OpensOnePanic(disk: Disk, m: Manifest)
    requires |m.fileNames| == 1 && m.fileNames[0] in disk && OpenFile(disk[m.fileNames[0]]) == Panic
    ensures OpenUpTo(disk, m, 1) == Panic
  {
    hide OpenFile;
  }
}
