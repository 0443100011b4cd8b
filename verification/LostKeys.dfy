/** Two runs of the engine as written in which one compaction is enough: after the first a key
    just written cannot be read and a scan silently leaves out most rows, after the second `Get`
    returns a value that has been overwritten. */
module LostKeys {
  import opened ByteStrings
  import opened Tables
  import opened TableFormat
  import opened TableReaders
  import opened TableLookup
  import opened TableScans
  import opened StaleOffsets
  import opened StaleReads
  import opened WriteAheadLog
  import opened Commands
  import opened MemoryTable
  import opened Store
  import opened Compaction
  import opened Engine
  import opened EngineSteps
  import opened EngineTheorems
  import opened Database
  import opened ExampleRuns

  /** A reachable state with nothing being written, the streams behind its files, and the ends the
      reader has for them. */
  ghost predicate Swapped(c: Config, steps: seq<Step>, db: Db, h: History, streams: seq<seq<Entry>>, ends: seq<nat>, written: Table) {
    && Runs(c, steps, db, h) && db.writer.Idle? && db.mem == map[]
    && h.streams == streams && db.st.indexOffsets == ends && h.written == written
  }

  lemma SwapAndClear(c: Config, steps: seq<Step>, db: Db, h: History, rows: seq<Entry>, t: seq<Entry>, more: seq<seq<Entry>>)
    returns (steps': seq<Step>, db': Db, h': History)
    requires Runs(c, steps, db, h) && !h.stale && !c.storesOffsets && db.writer.Published?
    requires db.compactor.Compacting? && db.compactor.rest == [] && |db.compactor.snapshot| == |rows|
    requires h.streams == Singles(rows) + more && Sorted(t) && ToTable(t) == ToTable(rows)
    ensures Swapped(c, steps', db', h', [t] + more, OffsetsOf(h.streams), h.written)
  {
    hide Runs, ToTable, OffsetsOf, AfterSwap, Sorted;
    EndsAre(c, steps, db, h);
    CompactedRows(rows, t, more);
    var db1, h1 := SwapRuns(c, steps, db, h);
    var clears;
    clears, db', h' := ListedIsReady(c, steps + [SwapFiles], db1, h1);
    steps' := (steps + [SwapFiles]) + clears;
  }

  /** What the readers then have to work with. */
  lemma SwappedReads(c: Config, steps: seq<Step>, db: Db, h: History, streams: seq<seq<Entry>>, ends: seq<nat>, written: Table, key: Bytes, v: Bytes)
    requires Swapped(c, steps, db, h, streams, ends, written)
    ensures db.st.Readable() && |db.st.files| == |streams| && Ends(ends, streams) && h.shown == written
    ensures DbGet(db, key, SLACK_AS_WRITTEN) == Ok(v)
      <==> Finds(streams, ends, c.blockLength, |streams|, key, SLACK_AS_WRITTEN, v)
  {
    hide Runs, Finds, DbGet, Backed;
    ReadFacts(c, steps, db, h);
    ShownIsWrittenBut(c, steps, db, h);
    GetInAnyState(c, steps, db, h, key, SLACK_AS_WRITTEN, v);
  }

  // ----- a key lost -----

  function FourRows(v: Bytes): seq<Entry> {
    [Row(1, v), Row(2, v), Row(3, v), Row(4, v)]
  }

  lemma FourRowsFacts(v: Bytes)
    requires Fills(v)
    ensures AllBig(FourRows(v)) && Sorted(FourRows(v)) && Storable(FourRows(v))
    ensures |Encode([Row(1, v)])| == |v| + 9 && FourRows(v)[..1] == [Row(1, v)]
    ensures |Encode(FourRows(v)[..2])| == 2 * (|v| + 9) && |Encode(FourRows(v)[..3])| == 3 * (|v| + 9)
  {
    hide Encode;
    assert Less([1], [2]) && Less([2], [3]) && Less([3], [4]) && Less([1], [3]) && Less([1], [4]) && Less([2], [4]);
    BigStorable(FourRows(v));
    BigLength(Row(1, v));
    BigLength(Row(2, v));
    BigLength(Row(3, v));
    EncodeAppend([Row(1, v)], Row(2, v));
    EncodeAppend([Row(1, v), Row(2, v)], Row(3, v));
    assert [Row(1, v)] + [Row(2, v)] == [Row(1, v), Row(2, v)];
    assert FourRows(v)[..2] == [Row(1, v)] + [Row(2, v)] && FourRows(v)[..3] == [Row(1, v), Row(2, v)] + [Row(3, v)];
  }

  /** With any checksum, the default block length and any value that fills the memtable, in a
      reachable state with nothing being written: four keys with values have been put, `Get` of
      the fourth panics, and a scan of everything gives the first row only. */
  lemma CompactionLosesKeys(crc: Checksum, v: Bytes) returns (steps: seq<Step>, db: Db, h: History)
    requires Fills(v)
    ensures Runs(AsWritten(crc), steps, db, h) && db.writer.Idle? && db.st.Readable()
    ensures h.shown == ToTable(FourRows(v)) && Lookup(h.shown, [4]) == v
    ensures DbGet(db, [4], SLACK_AS_WRITTEN) == Panic
    ensures PrefixUpTo(db.disk, db.st, |db.st.files|, [], map[]) == Ok(map[[1] := v]) && db.mem == map[]
  {
    hide Runs, Encode, ToTable, Sorted, Storable, AllBig, Swapped, DbGet, PrefixUpTo, Finds, NamesBelow;
    var c, t := AsWritten(crc), FourRows(v);
    FourRowsFacts(v);
    var before, db0, h0 := Puts(c, t);
    SinglesView(t);
    var merging, db1, h1 := MergingRuns(c, before, db0, h0, t);
    assert Singles(t) + [] == Singles(t) && [t] + [] == [t];
    steps, db, h := SwapAndClear(c, before + merging, db1, h1, t, t, []);
    ToTableAt(t, 3);
    LostAfterSwap(c, steps, db, h, v);
  }

  lemma LostAfterSwap(c: Config, steps: seq<Step>, db: Db, h: History, v: Bytes)
    requires Fills(v) && c.blockLength == DEFAULT_BLOCK_LENGTH
    requires Swapped(c, steps, db, h, [FourRows(v)], OffsetsOf(Singles(FourRows(v))), ToTable(FourRows(v)))
    ensures Runs(c, steps, db, h) && db.writer.Idle? && db.mem == map[] && h.shown == ToTable(FourRows(v))
    ensures db.st.Readable() && DbGet(db, [4], SLACK_AS_WRITTEN) == Panic
    ensures PrefixUpTo(db.disk, db.st, |db.st.files|, [], map[]) == Ok(map[[1] := v])
  {
    hide Runs, Encode, ToTable, Sorted, Storable, AllBig, FileGet, FilePrefix, Answer, Contributes, Contents, Backed, Finds;
    var t := FourRows(v);
    ReadFacts(c, steps, db, h);
    ShownIsWrittenBut(c, steps, db, h);
    FourRowsFacts(v);
    ListedFileGet(c, steps, db, h, 0, [4], SLACK_AS_WRITTEN);
    FourthIsLost(v);
    AnyEndScanBacked(db.disk, db.st, h.streams, c.blockLength, 0, [], map[]);
    OnlyFirstIsScanned(v);
    assert map[[1] := v] + map[] == map[[1] := v];
  }

  lemma FourthIsLost(v: Bytes)
    requires Fills(v)
    ensures Answer(FourRows(v), DEFAULT_BLOCK_LENGTH, |v| + 9, [4], SLACK_AS_WRITTEN) == Panic
  {
    hide Encode, ToTable, OnBoundary, Whole, PastTheData, LastStart, AllBig;
    FourRowsFacts(v);
    LastBigBlock(FourRows(v));
  }

  lemma OnlyFirstIsScanned(v: Bytes)
    requires Fills(v)
    ensures Contributes(FourRows(v), DEFAULT_BLOCK_LENGTH, |v| + 9, []) == Ok(map[[1] := v])
  {
    hide Encode, ToTable, Whole, Restrict, DataOffset, ScanStart, Blocks, SomeStops, ReadAt, FileBytes, ScanPrefix, Storable, AllBig;
    var t, e := FourRows(v), |v| + 9;
    FourRowsFacts(v);
    FromTheStart(t, DEFAULT_BLOCK_LENGTH);
    WholeIff(t, e, 0);
    WholeIff(t, e, 1);
    LongerPrefix(t, 2, 4);
    assert t[..4] == t;
    ToTableSingle(Row(1, v));
    EverythingHasNoPrefix(map[[1] := v]);
  }

  // ----- an overwritten value -----

  const NEW: Bytes := [9]

  /** Key 3 is put with the value o, among rows of the value v. */
  function OldRows(v: Bytes, o: Bytes): seq<Entry> {
    [Row(4, v), Row(3, o), Row(5, v), Row(6, v)]
  }

  function OldRowsSorted(v: Bytes, o: Bytes): seq<Entry> {
    [Row(3, o), Row(4, v), Row(5, v), Row(6, v)]
  }

  /** One transaction, which gives key 3 a new value. */
  function LateRows(x: Bytes): seq<Entry> {
    [Row(1, x), Row(2, [7]), Row(3, NEW)]
  }

  /** With any checksum, the default block length and any values of the right lengths, in a
      reachable state with nothing being written: a transaction was committed and flushed while a
      compaction ran, and `Get` returns what it has overwritten. */
  lemma GetReturnsOverwritten(crc: Checksum, v: Bytes, o: Bytes, x: Bytes) returns (steps: seq<Step>, db: Db, h: History)
    requires Fills(v) && Fills(o) && |o| == |x| + 9 && SIZE_LIMIT <= |x| <= MAX_PAYLOAD - 48
    ensures Runs(AsWritten(crc), steps, db, h) && db.writer.Idle? && db.st.Readable()
    ensures h.shown == ToTable(OldRows(v, o)) + ToTable(LateRows(x)) && Lookup(h.shown, [3]) == NEW != o
    ensures DbGet(db, [3], SLACK_AS_WRITTEN) == Ok(o)
  {
    hide Runs, Encode, ToTable, Sorted, Storable, AllBig, Swapped, DbGet, Finds, NamesBelow, FillsWith, EncodeTransaction;
    var c, rows, t, late := AsWritten(crc), OldRows(v, o), OldRowsSorted(v, o), LateRows(x);
    OldRowsFacts(v, o);
    LateRowsFacts(x);
    var before, db0, h0 := Puts(c, rows);
    SinglesView(rows);
    var merging, db1, h1 := MergingRuns(c, before, db0, h0, t);
    var clears, db2, h2 := ListedIsReady(c, before + merging, db1, h1);
    StillBelow(db1, db2);
    var writing, db3, h3 := WriteIsListed(c, before + merging + clears, db2, h2, LogCommit(late), late);
    steps, db, h := SwapAndClear(c, before + merging + clears + writing, db3, h3, rows, t, [late]);
    OverwrittenIsFound(v, o, x);
    assert [t] + [late] == [t, late] && h3.written == ToTable(rows) + ToTable(late);
    SwappedReads(c, steps, db, h, [t, late], OffsetsOf(Singles(rows) + [late]), ToTable(rows) + ToTable(late), [3], o);
    SwappedRuns(c, steps, db, h, [t, late], OffsetsOf(Singles(rows) + [late]), ToTable(rows) + ToTable(late));
    ToTableAt(late, 2);
  }

  lemma StillBelow(db: Db, db': Db)
    requires NamesBelow(db) && db'.disk == db.disk && db'.st == db.st
    ensures NamesBelow(db')
  {
  }

  lemma SwappedRuns(c: Config, steps: seq<Step>, db: Db, h: History, streams: seq<seq<Entry>>, ends: seq<nat>, written: Table)
    requires Swapped(c, steps, db, h, streams, ends, written)
    ensures Runs(c, steps, db, h) && db.writer.Idle?
  {
  }

  lemma OldRowsFacts(v: Bytes, o: Bytes)
    requires Fills(v) && Fills(o)
    ensures AllBig(OldRows(v, o)) && AllBig(OldRowsSorted(v, o))
    ensures Sorted(OldRowsSorted(v, o)) && Storable(OldRowsSorted(v, o)) && ToTable(OldRowsSorted(v, o)) == ToTable(OldRows(v, o))
    ensures |Encode([Row(3, o)])| == |o| + 9
  {
    hide Encode;
    assert Less([3], [4]) && Less([4], [5]) && Less([5], [6]) && Less([3], [5]) && Less([3], [6]) && Less([4], [6]);
    BigStorable(OldRowsSorted(v, o));
    BigLength(Row(3, o));
    SameRows(v, o);
  }

  lemma SameRows(v: Bytes, o: Bytes)
    ensures ToTable(OldRowsSorted(v, o)) == ToTable(OldRows(v, o))
  {
    hide ToTable;
    var a, b, rest := [Row(3, o)], [Row(4, v)], [Row(5, v), Row(6, v)];
    assert OldRowsSorted(v, o) == (a + b) + rest && OldRows(v, o) == (b + a) + rest;
    ToTableConcat(a + b, rest);
    ToTableConcat(b + a, rest);
    ToTableConcat(a, b);
    ToTableConcat(b, a);
    ToTableSingle(Row(3, o));
    ToTableSingle(Row(4, v));
    assert map[[3] := o] + map[[4] := v] == map[[4] := v] + map[[3] := o];
  }

  lemma LateLengths(x: Bytes)
    ensures Encode(LateRows(x)[..1]) == EncodeEntry(Row(1, x)) && |EncodeEntry(Row(1, x))| == |x| + 9
    ensures |Encode(LateRows(x)[..2])| == |x| + 19 && |Encode(LateRows(x))| == |x| + 29
  {
    hide Encode;
    EncodeSingle(Row(1, x));
    EncodeAppend([Row(1, x)], Row(2, [7]));
    EncodeAppend([Row(1, x), Row(2, [7])], Row(3, NEW));
    assert LateRows(x)[..1] == [Row(1, x)] && LateRows(x)[..2] == [Row(1, x)] + [Row(2, [7])];
    assert LateRows(x) == [Row(1, x), Row(2, [7])] + [Row(3, NEW)];
  }

  lemma LateRowsFacts(x: Bytes)
    requires SIZE_LIMIT <= |x| <= MAX_PAYLOAD - 48
    ensures Sorted(LateRows(x)) && Storable(LateRows(x)) && DistinctKeys(LateRows(x)) && NoEmptyKey(LateRows(x))
    ensures |EncodeTransaction(LateRows(x))| <= MAX_PAYLOAD
    ensures FillsWith(LogCommit(LateRows(x)), LateRows(x))
  {
    hide Encode, ToTable, TotalSize, Framed;
    assert Less([1], [2]) && Less([2], [3]) && Less([1], [3]);
    LateLengths(x);
    LatePayload(x);
    LateSize(x);
  }

  lemma LatePayload(x: Bytes)
    ensures |EncodeTransaction(LateRows(x))| == |x| + 48
  {
    hide EncodePairs, EncodePair;
    var a, b, c := Row(1, x), Row(2, [7]), Row(3, NEW);
    EncodePairsAppend([], a);
    EncodePairsAppend([a], b);
    EncodePairsAppend([a, b], c);
    NoPairs();
    assert [] + [a] == [a] && [a] + [b] == [a, b] && [a, b] + [c] == LateRows(x);
    PairLengths(x);
  }

  lemma PairLengths(x: Bytes)
    ensures |EncodePair(Row(1, x))| == |x| + 9 && |EncodePair(Row(2, [7]))| == 10 == |EncodePair(Row(3, NEW))|
  {
  }

  lemma LateSize(x: Bytes)
    requires SIZE_LIMIT <= |x|
    ensures TotalSize(ToTable(LateRows(x))) >= SIZE_LIMIT
  {
    hide TotalSize, ToTable;
    var a, b, c := Row(1, x), Row(2, [7]), Row(3, NEW);
    var none: Table := map[];
    NoSize();
    TotalSizePut(none, a.key, a.value);
    TotalSizePut(none[a.key := a.value], b.key, b.value);
    TotalSizePut(none[a.key := a.value][b.key := b.value], c.key, c.value);
    ToTableSingle(a);
    ToTableConcat([a], [b]);
    ToTableSingle(b);
    ToTableConcat([a] + [b], [c]);
    ToTableSingle(c);
    assert LateRows(x) == ([a] + [b]) + [c];
    assert ToTable(LateRows(x)) == none[a.key := a.value][b.key := b.value][c.key := c.value];
  }

  /** The transaction's first row is a block; the others share the last one. */
  lemma LateBlocks(x: Bytes)
    requires SIZE_LIMIT <= |x|
    ensures LastStart(LateRows(x), DEFAULT_BLOCK_LENGTH) == 1
  {
    hide Encode, EncodeEntry, Flat;
    var a, b, c := Row(1, x), Row(2, [7]), Row(3, NEW);
    var s := LateRows(x);
    LateLengths(x);
    EncodeSingle(b);
    EncodeAppend([b], c);
    SmallLengths();
    assert s[..0] == [] && s[..1] == [a] && s[..1][..0] == [] && s[..2] == [a, b] && s[..2][..1] == [a] && s[..3] == s;
    assert [] + [a] == [a] && [] + [b] == [b] && [b] + [c] == [b, c];
    assert CutUp([a], DEFAULT_BLOCK_LENGTH) == Cutting([[a]], []);
    assert CutUp([a, b], DEFAULT_BLOCK_LENGTH) == Cutting([[a]], [b]);
    assert CutUp(s, DEFAULT_BLOCK_LENGTH) == Cutting([[a]], [b, c]);
    assert Blocks(s, DEFAULT_BLOCK_LENGTH) == [[a], [b, c]];
    assert [[a], [b, c]][..1] == [[a]];
    FlatSingle([a]);
  }

  lemma SmallLengths()
    ensures |EncodeEntry(Row(2, [7]))| == 10 == |EncodeEntry(Row(3, NEW))|
  {
  }

  /** The late file passes over key 3 without an error, and the merged file still has its old
      value. */
  lemma OverwrittenIsFound(v: Bytes, o: Bytes, x: Bytes)
    requires Fills(v) && Fills(o) && |o| == |x| + 9 && SIZE_LIMIT <= |x| <= MAX_PAYLOAD - 48
    ensures var streams, ends := [OldRowsSorted(v, o), LateRows(x)], OffsetsOf(Singles(OldRows(v, o)) + [LateRows(x)]);
      Ends(ends, streams) && Finds(streams, ends, DEFAULT_BLOCK_LENGTH, 2, [3], SLACK_AS_WRITTEN, o)
  {
    hide Encode, Answer, AllBig, ToTable, Less, Sorted;
    var t, late, ends := OldRowsSorted(v, o), LateRows(x), OffsetsOf(Singles(OldRows(v, o)) + [LateRows(x)]);
    OldRowsFacts(v, o);
    FoundInMerged(v, o, ends[0]);
    PassedByLate(o, x);
    assert ends[1] == |o| + 9;
    assert FoundAt([t, late], ends, DEFAULT_BLOCK_LENGTH, 2, [3], SLACK_AS_WRITTEN, o, 0);
  }

  lemma FoundInMerged(v: Bytes, o: Bytes, e: nat)
    requires Fills(v) && Fills(o)
    ensures Answer(OldRowsSorted(v, o), DEFAULT_BLOCK_LENGTH, e, [3], SLACK_AS_WRITTEN) == Ok(o)
  {
    hide Encode, ToTable, OnBoundary, Whole, PastTheData, LastStart, AllBig;
    OldRowsFacts(v, o);
    LastBigBlock(OldRowsSorted(v, o));
    ToTableAt(OldRowsSorted(v, o), 0);
    assert Less([3], [6]);
  }

  lemma PassedByLate(o: Bytes, x: Bytes)
    requires |o| == |x| + 9 && SIZE_LIMIT <= |x| <= MAX_PAYLOAD - 48
    ensures Passes(LateRows(x), DEFAULT_BLOCK_LENGTH, |o| + 9, [3], SLACK_AS_WRITTEN)
  {
    hide Encode, Answer, LastStart, Storable, Whole, EncodeEntry, FillsWith;
    LateRowsFacts(x);
    LateLengths(x);
    LateBlocks(x);
    WholeIff(LateRows(x), |x| + 19, 1);
    WholeIff(LateRows(x), |x| + 19, 2);
    assert LateRows(x)[..3] == LateRows(x);
    SilentlyLostIff(LateRows(x), DEFAULT_BLOCK_LENGTH, |o| + 9, 2, SLACK_AS_WRITTEN);
  }
}
