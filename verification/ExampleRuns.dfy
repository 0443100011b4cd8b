/** Building runs of the engine as written, from the empty database: writes that fill the
    memtable, a compaction, a crash. */
module ExampleRuns {
  import opened ByteStrings
  import opened Tables
  import opened TableFormat
  import opened TableReaders
  import opened TableLookup
  import opened StaleOffsets
  import opened WriteAheadLog
  import opened Commands
  import opened MemoryTable
  import opened Store
  import opened Compaction
  import opened Engine
  import opened EngineSteps
  import opened EngineTheorems
  import opened Database

  const DEFAULT_BLOCK_LENGTH: int := 100

  function AsWritten(crc: Checksum): Config {
    Config(crc, DEFAULT_BLOCK_LENGTH, false, false)
  }

  /** A value long enough for one put to fill the memtable, and within the log's limit. */
  predicate Fills(v: Bytes) {
    SIZE_LIMIT <= |v| <= MAX_PAYLOAD - 16
  }

  /** A put that is flushed at once. */
  predicate Big(e: Entry) {
    |e.key| == 1 && Fills(e.value)
  }

  predicate AllBig(rows: seq<Entry>) {
    forall i :: 0 <= i < |rows| ==> Big(rows[i])
  }

  function Row(k: byte, v: Bytes): Entry {
    Entry([k], v)
  }

  // ----- one write, one file -----

  /** No file lies under the next number. */
  ghost predicate NamesBelow(db: Db) {
    forall f :: f in db.disk ==> f < db.st.manifest.nextFileId
  }

  /** Ready for a write: none in progress, memtable empty. */
  ghost predicate Ready(db: Db, h: History) {
    db.writer.Idle? && db.mem == map[] && !h.stale && NamesBelow(db)
  }

  /** The write is in a new file, which is listed; memtable and log are not cleared yet. */
  ghost predicate JustListed(db: Db, h: History, db': Db, h': History, s: seq<Entry>) {
    && db'.writer.Published? && db'.compactor == db.compactor && !h'.stale && NamesBelow(db')
    && |db'.st.files| == |db.st.files| + 1
    && h'.streams == h.streams + [s] && h'.written == h.written + ToTable(s)
  }

  function WrittenBy(step: Step): seq<Entry>
    requires step.LogPut? || step.LogCommit?
  {
    if step.LogPut? then [Entry(step.key, step.value)] else step.order
  }

  /** A write whose table, in ascending order s, fills the memtable. */
  ghost predicate FillsWith(step: Step, s: seq<Entry>) {
    && (step.LogPut? || step.LogCommit?) && ToTable(s) == ToTable(WrittenBy(step))
    && Storable(s) && TotalSize(ToTable(s)) >= SIZE_LIMIT
  }

  lemma WriteIsApplied(c: Config, steps: seq<Step>, db: Db, h: History, step: Step, s: seq<Entry>) returns (db': Db, h': History)
    requires Runs(c, steps, db, h) && Ready(db, h)
    requires FillsWith(step, s) && Enabled(db, step) && Granted(c, db, step)
    ensures Runs(c, steps + [step] + [Apply], db', h')
    ensures db' == db.(wal := db'.wal, mem := ToTable(s), writer := Applied)
    ensures h'.streams == h.streams && h'.written == h.written + ToTable(s) && h'.stale == h.stale
  {
    hide Runs, Record, EncodePut, EncodeTransaction, TotalSize, ToTable, Storable;
    RunExtends(c, steps, db, h, step);
    var d1, h1 := Next(c, db, step), Recall(c, db, h, step);
    RunExtends(c, steps + [step], d1, h1, Apply);
    db', h' := Next(c, d1, Apply), Recall(c, d1, h1, Apply);
    assert map[] + ToTable(s) == ToTable(s);
    if step.LogPut? {
      ToTableSingle(Entry(step.key, step.value));
      assert h.written[step.key := step.value] == h.written + map[step.key := step.value];
    }
  }

  lemma AscendIs(s: seq<Entry>)
    requires Sorted(s)
    ensures Ascend(ToTable(s)) == s
  {
    hide Ascend, ToTable, Less;
    AscendTable(ToTable(s));
    AscendSorted(ToTable(s));
    SortedUnique(Ascend(ToTable(s)), s);
  }

  lemma WriteIsListed(c: Config, steps: seq<Step>, db: Db, h: History, step: Step, s: seq<Entry>) returns (more: seq<Step>, db': Db, h': History)
    requires Runs(c, steps, db, h) && Ready(db, h)
    requires FillsWith(step, s) && Enabled(db, step) && Granted(c, db, step)
    ensures Runs(c, steps + more, db', h') && JustListed(db, h, db', h', s)
  {
    hide Runs, FileBytes, Blocks, IndexFor, Encode, Ascend, TotalSize, ToTable, Sorted, NoEmptyKey;
    var d2, h2 := WriteIsApplied(c, steps, db, h, step, s);
    AscendIs(s);
    RunExtends(c, steps + [step] + [Apply], d2, h2, NewTable);
    var d3, h3 := Next(c, d2, NewTable), Recall(c, d2, h2, NewTable);
    FileBytesNonEmpty(s, c.blockLength);
    var fill := FillSome(|d3.writer.rest|);
    FillsWhole(d3.writer.rest);
    RunExtends(c, steps + [step] + [Apply] + [NewTable], d3, h3, fill);
    var d4, h4 := Next(c, d3, fill), Recall(c, d3, h3, fill);
    RunExtends(c, steps + [step] + [Apply] + [NewTable] + [fill], d4, h4, Publish);
    db', h' := Next(c, d4, Publish), Recall(c, d4, h4, Publish);
    more := [step, Apply, NewTable, fill, Publish];
    FiveSteps(steps, step, Apply, NewTable, fill, Publish);
  }

  lemma FiveSteps(steps: seq<Step>, a: Step, b: Step, c: Step, d: Step, e: Step)
    ensures steps + [a] + [b] + [c] + [d] + [e] == steps + [a, b, c, d, e]
  {
  }

  lemma ListedIsReady(c: Config, steps: seq<Step>, db: Db, h: History) returns (more: seq<Step>, db': Db, h': History)
    requires Runs(c, steps, db, h) && db.writer.Published?
    ensures Runs(c, steps + more, db', h') && h'.streams == h.streams && h'.written == h.written && h'.stale == h.stale
    ensures db' == db.(mem := map[], wal := [], writer := Idle)
  {
    hide Runs;
    RunExtends(c, steps, db, h, ClearMemtable);
    var d1, h1 := Next(c, db, ClearMemtable), Recall(c, db, h, ClearMemtable);
    RunExtends(c, steps + [ClearMemtable], d1, h1, ClearLog);
    db', h' := Next(c, d1, ClearLog), Recall(c, d1, h1, ClearLog);
    more := [ClearMemtable, ClearLog];
    assert steps + [ClearMemtable] + [ClearLog] == steps + more;
  }

  // ----- one put, one file of one row -----

  lemma BigLength(e: Entry)
    requires Big(e)
    ensures |EncodeEntry(e)| == |e.value| + 9 && Encode([e]) == EncodeEntry(e)
    ensures Storable([e]) && |EncodePut(e.key, e.value)| <= MAX_PAYLOAD
  {
    EncodeSingle(e);
  }

  lemma NoSize()
    ensures TotalSize(map[]) == 0
  {
  }

  lemma BigFills(e: Entry)
    requires Big(e)
    ensures FillsWith(LogPut(e.key, e.value), [e])
  {
    hide TotalSize, ToTable, Less, Storable;
    BigLength(e);
    ToTableSingle(e);
    var none: Table := map[];
    TotalSizePut(none, e.key, e.value);
    NoSize();
    assert none[e.key := e.value] == map[e.key := e.value];
  }

  /** Every row a list of its own. */
  function Singles(rows: seq<Entry>): (r: seq<seq<Entry>>)
    ensures |r| == |rows| && forall i :: 0 <= i < |rows| ==> r[i] == [rows[i]]
  {
    if rows == [] then [] else Singles(rows[..|rows| - 1]) + [[rows[|rows| - 1]]]
  }

  /** After puts of these rows: as many files of one row each. */
  lemma {:induction false} Puts(c: Config, rows: seq<Entry>) returns (steps: seq<Step>, db: Db, h: History)
    requires rows != [] && AllBig(rows)
    ensures Runs(c, steps, db, h) && db.writer.Published? && db.compactor.Resting? && !h.stale && NamesBelow(db)
    ensures |db.st.files| == |rows| && h.streams == Singles(rows) && h.written == ToTable(rows)
    decreases |rows|
  {
    hide Runs, FillsWith, ToTable, EncodePut;
    var n, e := |rows| - 1, rows[|rows| - 1];
    var before, db0, h0 := [], EMPTY_DB, NO_HISTORY;
    if n == 0 {
      RunsFromNothing(c);
      NoEntries();
      assert rows[..n] == [];
    } else {
      before, db0, h0 := Puts(c, rows[..n]);
      var clears;
      clears, db0, h0 := ListedIsReady(c, before, db0, h0);
      before := before + clears;
    }
    BigFills(e);
    BigLength(e);
    var more;
    more, db, h := WriteIsListed(c, before, db0, h0, LogPut(e.key, e.value), [e]);
    steps := before + more;
    assert rows == rows[..n] + [e];
    ToTableConcat(rows[..n], [e]);
  }

  lemma RunsFromNothing(c: Config)
    ensures Runs(c, [], EMPTY_DB, NO_HISTORY)
  {
  }

  // ----- the merged file -----

  lemma {:induction false} SinglesView(rows: seq<Entry>)
    ensures MergedView(Singles(rows)) == ToTable(rows)
  {
    hide MergedView, ToTable;
    if rows == [] {
      EmptyView(Singles(rows));
      NoEntries();
    } else {
      var n, e := |rows| - 1, rows[|rows| - 1];
      SinglesView(rows[..n]);
      MergedViewConcat(Singles(rows[..n]), [[e]]);
      MergedViewSingle([e]);
      assert rows == rows[..n] + [e];
      ToTableConcat(rows[..n], [e]);
    }
  }

  lemma {:induction false} BigStorable(t: seq<Entry>)
    requires AllBig(t) && Sorted(t) && |t| <= 4
    ensures Storable(t) && |Encode(t)| <= |t| * MAX_PAYLOAD
  {
    hide Encode, EncodeEntry, Less;
    if t == [] {
      EncodeNone();
    } else {
      var n := |t| - 1;
      BigStorable(t[..n]);
      BigLength(t[n]);
      assert t == t[..n] + [t[n]];
      EncodeAppend(t[..n], t[n]);
    }
  }

  /** Every row is a block of its own. */
  lemma {:induction false} BigBlocks(t: seq<Entry>)
    requires AllBig(t)
    ensures CutUp(t, DEFAULT_BLOCK_LENGTH) == Cutting(Singles(t), [])
  {
    hide Encode, EncodeEntry;
    if t != [] {
      var n := |t| - 1;
      BigBlocks(t[..n]);
      BigLength(t[n]);
      assert [] + [t[n]] == [t[n]];
    }
  }

  lemma {:induction false} SinglesFlat(t: seq<Entry>)
    ensures Flat(Singles(t)) == t
  {
    if t != [] {
      var n := |t| - 1;
      SinglesFlat(t[..n]);
      assert t == t[..n] + [t[n]];
    }
  }

  lemma SinglesInit(t: seq<Entry>)
    requires t != []
    ensures Singles(t)[..|t| - 1] == Singles(t[..|t| - 1])
  {
  }

  lemma LastBigBlock(t: seq<Entry>)
    requires AllBig(t) && t != []
    ensures Blocks(t, DEFAULT_BLOCK_LENGTH) == Singles(t) && LastStart(t, DEFAULT_BLOCK_LENGTH) == |t| - 1
  {
    hide CutUp, Encode, Flat;
    BigBlocks(t);
    SinglesInit(t);
    SinglesFlat(t[..|t| - 1]);
  }

  // ----- a compaction -----

  /** A compaction of all files into t stands before its swap; nothing else has changed. */
  ghost predicate Merged(db: Db, h: History, db': Db, h': History, t: seq<Entry>) {
    && db'.compactor == Compacting(db.st.files, t, db.st.manifest.nextFileId, [])
    && db'.st == TakeId(db.st) && db'.mem == db.mem && db'.writer == db.writer && NamesBelow(db')
    && h'.written == h.written && h'.streams == h.streams && h'.stale == h.stale
  }

  /** A compaction of all files up to its swap. */
  lemma MergingRuns(c: Config, steps: seq<Step>, db: Db, h: History, t: seq<Entry>) returns (more: seq<Step>, db': Db, h': History)
    requires Runs(c, steps, db, h) && db.writer.Published? && db.compactor.Resting? && |db.st.files| >= 4 && NamesBelow(db)
    requires Storable(t) && ToTable(t) == MergedView(h.streams)
    ensures Runs(c, steps + more, db', h') && Merged(db, h, db', h', t)
  {
    hide Runs, FileBytes, MergedEntries, Encode, Ascend, MergedView, ToTable, Backed;
    ReadFacts(c, steps, db, h);
    RunExtends(c, steps, db, h, StartCompaction);
    var d0 := Next(c, db, StartCompaction);
    AscendIs(t);
    IsPrefixOfItself(db.st.files);
    MergeOfSnapshot(db.disk, db.st, h.streams, c.blockLength, db.st.files);
    assert h.streams[..|h.streams|] == h.streams;
    var first;
    first, db', h' := MergingIsRun(c, steps + [StartCompaction], d0, h);
    more := [StartCompaction] + first;
    assert (steps + [StartCompaction]) + first == steps + more;
  }

  lemma IsPrefixOfItself(files: seq<FileId>)
    ensures IsPrefix(files, files)
  {
  }

  /** Its swap as written, of the first n files. */
  ghost predicate JustSwapped(db: Db, h: History, db': Db, h': History, n: nat) {
    && n <= |h.streams| && h'.streams == AfterSwap(h.streams, n) && h'.written == h.written
    && db'.writer == db.writer && db'.mem == db.mem && db'.st.indexOffsets == db.st.indexOffsets
  }

  lemma SwapRuns(c: Config, steps: seq<Step>, db: Db, h: History) returns (db': Db, h': History)
    requires Runs(c, steps, db, h) && db.compactor.Compacting? && db.compactor.rest == [] && !c.storesOffsets
    ensures Runs(c, steps + [SwapFiles], db', h') && JustSwapped(db, h, db', h', |db.compactor.snapshot|)
  {
    hide Runs, Blocks, IndexFor, Encode, Backed, LogOk, ViewOk, OffsetsOk, WriterOk, Apart, Pending, CompactedStream, Keep, Distinct,
      AfterSwap;
    RunsKeep(c, steps, db, h);
    BackedShape(db.disk, db.st, h.streams, c.blockLength);
    PrefixShort(db.compactor.snapshot, db.st.files);
    RunExtends(c, steps, db, h, SwapFiles);
    db', h' := Next(c, db, SwapFiles), Recall(c, db, h, SwapFiles);
  }

  /** The reader's ends, as long as none was left behind. */
  lemma EndsAre(c: Config, steps: seq<Step>, db: Db, h: History)
    requires Runs(c, steps, db, h) && !h.stale
    ensures db.st.indexOffsets == OffsetsOf(h.streams)
  {
    hide Runs, Encode, Backed, LogOk, ViewOk, WriterOk, CompactorOk, Apart, Distinct;
    RunsKeep(c, steps, db, h);
    BackedShape(db.disk, db.st, h.streams, c.blockLength);
  }

  /** The merge of rows of one file each is the rows in ascending order. */
  lemma CompactedRows(rows: seq<Entry>, t: seq<Entry>, more: seq<seq<Entry>>)
    requires Sorted(t) && ToTable(t) == ToTable(rows)
    ensures AfterSwap(Singles(rows) + more, |rows|) == [t] + more
  {
    hide MergedView, ToTable, Ascend, Less;
    var streams := Singles(rows) + more;
    assert streams[..|rows|] == Singles(rows) && streams[|rows|..] == more;
    SinglesView(rows);
    AscendIs(t);
  }

  // ----- a crash -----

  /** A crash in any state of a run is one more step of it; afterwards reads show all logged
      writes, and no end is left behind. */
  lemma AfterCrash(c: Config, steps: seq<Step>, db: Db, h: History)
    requires Runs(c, steps, db, h)
    ensures Recover(c, db).Some? && Recover(c, db).value == Next(c, db, Crash)
    ensures Runs(c, steps + [Crash], Recover(c, db).value, Recall(c, db, h, Crash))
    ensures Recover(c, db).value.st.Readable() && Recover(c, db).value.mem == Effect(h.payloads)
  {
    hide Runs, Recover, Effect, OffsetsOf, MergedView, Inv;
    RunsKeep(c, steps, db, h);
    RecoverSpec(c, db, h);
    CrashLosesNothing(c, steps, db, h);
    RunExtends(c, steps, db, h, Crash);
    ReadFacts(c, steps + [Crash], Next(c, db, Crash), Recall(c, db, h, Crash));
  }
}
