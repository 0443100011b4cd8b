/** The list of SSTable files, oldest first, with the index block and index offset held in
    memory for each, and the reads over the whole list (sstable/sstable.go). */
module Store {
  import opened ByteStrings
  import opened Tables
  import opened TableFormat
  import opened TableReaders
  import opened TableLookup
  import opened TableScans

  type FileId = nat

  type Disk = map<FileId, Bytes>

  datatype Manifest = Manifest(nextFileId: nat, fileNames: seq<FileId>)

  /** The fields of `SsTable` that its lock guards. */
  datatype State = State(
    files: seq<FileId>,
    indexBlocks: seq<seq<IndexEntry>>,
    indexOffsets: seq<nat>,
    manifest: Manifest)
  {
    /** Enough for the readers to index safely; `indexOffsets` may be longer. */
    predicate Readable() {
      |indexBlocks| == |files| && |files| <= |indexOffsets|
    }
  }

  /** What a file holds; nothing, before it is created. */
  function Contents(disk: Disk, id: FileId): Bytes {
    if id in disk then disk[id] else []
  }

  // ----- reads over the list -----

  /** The first n files of `Get`, newest to oldest. An empty value without an error sends the
      search to the next older file. */
  function GetUpTo(disk: Disk, st: State, n: nat, key: Bytes, slack: nat): Outcome<Bytes>
    requires st.Readable() && n <= |st.files|
  {
    if n == 0 then Ok([])
    else
      var r := FileGet(Contents(disk, st.files[n - 1]), st.indexBlocks[n - 1], st.indexOffsets[n - 1], key, slack);
      if r == Ok([]) then GetUpTo(disk, st, n - 1, key, slack) else r
  }

  function PrefixUpTo(disk: Disk, st: State, n: nat, prefix: Bytes, found: Table): Outcome<Table>
    requires st.Readable() && n <= |st.files|
  {
    if n == 0 then Ok(found)
    else match FilePrefix(Contents(disk, st.files[n - 1]), st.indexBlocks[n - 1], st.indexOffsets[n - 1], prefix, found)
      case Ok(more) => PrefixUpTo(disk, st, n - 1, prefix, more)
      case other => other
  }

  /** `buildCompactedMap` over the first n files of a snapshot, oldest to newest.
      `getIndexOffset` does not look at the error of `os.Stat`, so a file that is gone panics. */
  function CompactedUpTo(disk: Disk, files: seq<FileId>, n: nat): Outcome<Table>
    requires n <= |files|
  {
    if n == 0 then Ok(map[])
    else match CompactedUpTo(disk, files, n - 1)
      case Ok(found) => if files[n - 1] in disk then FileInto(disk[files[n - 1]], found) else Panic
      case other => other
  }

  /** `buildIndexes` over the first n files; a file the manifest names must exist. */
  function OpenUpTo(disk: Disk, m: Manifest, n: nat): Outcome<State>
    requires n <= |m.fileNames|
  {
    if n == 0 then Ok(State([], [], [], m))
    else match OpenUpTo(disk, m, n - 1)
      case Ok(st) =>
        if m.fileNames[n - 1] !in disk then Error
        else (match OpenFile(disk[m.fileNames[n - 1]])
          case Ok(o) =>
            Ok(st.(files := st.files + [m.fileNames[n - 1]],
                   indexBlocks := st.indexBlocks + [o.index],
                   indexOffsets := st.indexOffsets + [o.indexOffset]))
          case Error => Error
          case Panic => Panic)
      case other => other
  }

  // ----- the files a state stands for -----

  /** Entry i of every field belongs to one file that was written from stream i. */
  ghost predicate BackedAt(disk: Disk, st: State, streams: seq<seq<Entry>>, maxLength: int, i: nat)
    requires i < |st.files| && st.Readable() && |streams| == |st.files|
  {
    && Storable(streams[i])
    && st.files[i] in disk && disk[st.files[i]] == FileBytes(streams[i], maxLength)
    && st.indexBlocks[i] == IndexFor(Blocks(streams[i], maxLength))
  }

  /** The files, index blocks and manifest agree entry by entry with the streams. */
  ghost predicate Backed(disk: Disk, st: State, streams: seq<seq<Entry>>, maxLength: int) {
    && st.Readable() && |streams| == |st.files|
    && st.manifest.fileNames == st.files
    && forall i :: 0 <= i < |st.files| ==> BackedAt(disk, st, streams, maxLength, i)
  }

  /** The index offset the readers use for each file is that of the file. */
  ghost predicate OffsetsAligned(st: State, streams: seq<seq<Entry>>) {
    |streams| <= |st.indexOffsets| &&
    forall i :: 0 <= i < |streams| ==> st.indexOffsets[i] == |Encode(streams[i])|
  }

  ghost function TablesOf(streams: seq<seq<Entry>>): (tables: seq<Table>)
    ensures |tables| == |streams|
  {
    seq(|streams|, i requires 0 <= i < |streams| => ToTable(streams[i]))
  }

  /** The plain map a list of files stands for. */
  ghost function MergedView(streams: seq<seq<Entry>>): Table {
    Merge(TablesOf(streams))
  }

  lemma {:induction false} MergedViewInit(streams: seq<seq<Entry>>, n: nat)
    requires 0 < n <= |streams|
    ensures MergedView(streams[..n]) == MergedView(streams[..n - 1]) + ToTable(streams[n - 1])
  {
    assert TablesOf(streams[..n])[..n - 1] == TablesOf(streams[..n - 1]);
  }

  lemma MergedViewConcat(a: seq<seq<Entry>>, b: seq<seq<Entry>>)
    ensures MergedView(a + b) == MergedView(a) + MergedView(b)
  {
    assert TablesOf(a + b) == TablesOf(a) + TablesOf(b);
    MergeConcat(TablesOf(a), TablesOf(b));
  }

  lemma MergedViewSingle(s: seq<Entry>)
    ensures MergedView([s]) == ToTable(s)
  {
    assert TablesOf([s]) == [ToTable(s)];
    MergeSingle(ToTable(s));
  }

  // ----- point lookups -----

  /** The newest non-empty value of a key. */
  ghost function NewestNonEmpty(streams: seq<seq<Entry>>, n: nat, key: Bytes): Bytes
    requires n <= |streams|
  {
    if n == 0 then []
    else if key in ToTable(streams[n - 1]) && ToTable(streams[n - 1])[key] != [] then ToTable(streams[n - 1])[key]
    else NewestNonEmpty(streams, n - 1, key)
  }

  /** File i does not hold the key, but the key is not below its first key either. */
  ghost predicate Trap(streams: seq<seq<Entry>>, i: nat, key: Bytes)
    requires i < |streams|
  {
    key !in ToTable(streams[i]) && streams[i] != [] && !Less(key, streams[i][0].key)
  }

  /** Some newer file answers before the search comes to file i. */
  ghost predicate Shielded(streams: seq<seq<Entry>>, n: nat, i: nat, key: Bytes)
    requires n <= |streams|
  {
    exists j :: i < j < n && key in ToTable(streams[j]) && ToTable(streams[j])[key] != []
  }

  lemma FileGetBacked(disk: Disk, st: State, streams: seq<seq<Entry>>, maxLength: int, i: nat, key: Bytes, slack: nat)
    requires i < |st.files| && Backed(disk, st, streams, maxLength) && OffsetsAligned(st, streams) && slack <= 1
    ensures FileGet(Contents(disk, st.files[i]), st.indexBlocks[i], st.indexOffsets[i], key, slack) ==
      if key in ToTable(streams[i]) then Ok(ToTable(streams[i])[key])
      else if slack == 1 && Trap(streams, i, key) then Error
      else Ok([])
  {
    hide ToTable, Encode, FileBytes, Blocks, IndexFor, FileGet, Less;
    assert BackedAt(disk, st, streams, maxLength, i);
    FileGetSpec(streams[i], maxLength, key, slack);
  }

  /** With the exact block length `Get` never fails and returns the newest non-empty value. */
  lemma {:induction false} GetExact(disk: Disk, st: State, streams: seq<seq<Entry>>, maxLength: int, n: nat, key: Bytes)
    requires Backed(disk, st, streams, maxLength) && OffsetsAligned(st, streams) && n <= |streams|
    ensures GetUpTo(disk, st, n, key, 0) == Ok(NewestNonEmpty(streams, n, key))
  {
    hide ToTable, BackedAt, OffsetsAligned, FileGet, Trap;
    if n > 0 {
      FileGetBacked(disk, st, streams, maxLength, n - 1, key, 0);
      GetExact(disk, st, streams, maxLength, n - 1, key);
    }
  }

  /** As written, `Get` fails exactly when the search runs into a file that spans the key
      without holding it; otherwise it returns the same value. */
  lemma {:induction false} GetAsWritten(disk: Disk, st: State, streams: seq<seq<Entry>>, maxLength: int, n: nat, key: Bytes)
    requires Backed(disk, st, streams, maxLength) && OffsetsAligned(st, streams) && n <= |streams|
    ensures GetUpTo(disk, st, n, key, SLACK_AS_WRITTEN) ==
      if exists i :: 0 <= i < n && Trap(streams, i, key) && !Shielded(streams, n, i, key) then Error
      else Ok(NewestNonEmpty(streams, n, key))
  {
    hide ToTable, BackedAt, OffsetsAligned, FileGet, Trap;
    if n > 0 {
      FileGetBacked(disk, st, streams, maxLength, n - 1, key, 1);
      GetAsWritten(disk, st, streams, maxLength, n - 1, key);
      TrapMisses(streams, n - 1, key);
      ShieldedStep(streams, n, key);
      assert !Shielded(streams, n, n - 1, key);
    }
  }

  lemma ShieldedStep(streams: seq<seq<Entry>>, n: nat, key: Bytes)
    requires 0 < n <= |streams|
    ensures forall i :: 0 <= i < n - 1 ==> (Shielded(streams, n, i, key) <==>
      Shielded(streams, n - 1, i, key) || (key in ToTable(streams[n - 1]) && ToTable(streams[n - 1])[key] != []))
  {
    hide ToTable;
  }

  lemma TrapMisses(streams: seq<seq<Entry>>, i: nat, key: Bytes)
    requires i < |streams|
    ensures Trap(streams, i, key) ==> key !in ToTable(streams[i])
  {
  }

  /** The newest binding of a key is non-empty, or no file binds it to anything non-empty. */
  ghost predicate NotBlanked(streams: seq<seq<Entry>>, key: Bytes) {
    Lookup(MergedView(streams), key) != [] ||
    forall i :: 0 <= i < |streams| && key in ToTable(streams[i]) ==> ToTable(streams[i])[key] == []
  }

  lemma {:induction false} NewestNonEmptyCases(streams: seq<seq<Entry>>, n: nat, key: Bytes)
    requires n <= |streams|
    ensures Lookup(MergedView(streams[..n]), key) != [] ==>
      NewestNonEmpty(streams, n, key) == Lookup(MergedView(streams[..n]), key)
    ensures NewestNonEmpty(streams, n, key) == [] <==>
      forall i :: 0 <= i < n && key in ToTable(streams[i]) ==> ToTable(streams[i])[key] == []
  {
    hide ToTable, MergedView;
    if n > 0 {
      NewestNonEmptyCases(streams, n - 1, key);
      MergedViewInit(streams, n);
    } else {
      assert MergedView(streams[..0]) == map[] by { EmptyView(streams[..0]); }
    }
  }

  lemma EmptyView(streams: seq<seq<Entry>>)
    requires streams == []
    ensures MergedView(streams) == map[]
  {
  }

  /** The exact lookup is the plain map's lookup if and only if the key was not blanked: an
      empty value that covers an older non-empty one is skipped. */
  lemma ExactGetIff(disk: Disk, st: State, streams: seq<seq<Entry>>, maxLength: int, key: Bytes)
    requires Backed(disk, st, streams, maxLength) && OffsetsAligned(st, streams)
    ensures GetUpTo(disk, st, |st.files|, key, 0) == Ok(Lookup(MergedView(streams), key))
      <==> NotBlanked(streams, key)
  {
    hide ToTable, MergedView, OffsetsAligned, GetUpTo;
    GetExact(disk, st, streams, maxLength, |streams|, key);
    NewestNonEmptyCases(streams, |streams|, key);
    assert streams[..|streams|] == streams;
  }

  /** The lookup as written is the plain map's lookup if and only if, besides, every file that
      spans the key without holding it is older than one that holds it. */
  lemma GetAsWrittenIff(disk: Disk, st: State, streams: seq<seq<Entry>>, maxLength: int, key: Bytes)
    requires Backed(disk, st, streams, maxLength) && OffsetsAligned(st, streams)
    ensures GetUpTo(disk, st, |st.files|, key, SLACK_AS_WRITTEN) == Ok(Lookup(MergedView(streams), key))
      <==> (NotBlanked(streams, key)
        && forall i :: 0 <= i < |streams| && Trap(streams, i, key) ==> Shielded(streams, |streams|, i, key))
  {
    hide ToTable, MergedView, OffsetsAligned, GetUpTo, Trap, Shielded;
    GetAsWritten(disk, st, streams, maxLength, |streams|, key);
    NewestNonEmptyCases(streams, |streams|, key);
    assert streams[..|streams|] == streams;
  }

  // ----- prefix scans -----

  lemma FilePrefixBacked(disk: Disk, st: State, streams: seq<seq<Entry>>, maxLength: int, i: nat, prefix: Bytes, found: Table)
    requires i < |st.files| && Backed(disk, st, streams, maxLength) && OffsetsAligned(st, streams)
    ensures FilePrefix(Contents(disk, st.files[i]), st.indexBlocks[i], st.indexOffsets[i], prefix, found) ==
      Ok(Restrict(ToTable(streams[i]), prefix) + found)
  {
    hide ToTable, Encode, FileBytes, Blocks, IndexFor, FilePrefix, Less, Restrict;
    assert BackedAt(disk, st, streams, maxLength, i);
    FilePrefixSpec(streams[i], maxLength, prefix, found);
  }

  lemma {:induction false} PrefixUpToSpec(disk: Disk, st: State, streams: seq<seq<Entry>>, maxLength: int, n: nat, prefix: Bytes, found: Table)
    requires Backed(disk, st, streams, maxLength) && OffsetsAligned(st, streams) && n <= |streams|
    ensures PrefixUpTo(disk, st, n, prefix, found) == Ok(Restrict(MergedView(streams[..n]), prefix) + found)
  {
    hide ToTable, BackedAt, OffsetsAligned, FilePrefix, MergedView, Restrict;
    if n > 0 {
      FilePrefixBacked(disk, st, streams, maxLength, n - 1, prefix, found);
      var more := Restrict(ToTable(streams[n - 1]), prefix) + found;
      PrefixUpToSpec(disk, st, streams, maxLength, n - 1, prefix, more);
      MergedViewInit(streams, n);
      RestrictPlus(MergedView(streams[..n - 1]), ToTable(streams[n - 1]), prefix);
      PlusAssociates(Restrict(MergedView(streams[..n - 1]), prefix), Restrict(ToTable(streams[n - 1]), prefix), found);
    } else {
      NothingRestricted(streams[..0], prefix, found);
    }
  }

  lemma NothingRestricted(streams: seq<seq<Entry>>, prefix: Bytes, found: Table)
    requires streams == []
    ensures Restrict(MergedView(streams), prefix) + found == found
  {
  }

  /** `PrefixScan` is the newest-wins merge of all files, restricted to the prefix. */
  lemma PrefixScanSpec(disk: Disk, st: State, streams: seq<seq<Entry>>, maxLength: int, prefix: Bytes)
    requires Backed(disk, st, streams, maxLength) && OffsetsAligned(st, streams)
    ensures PrefixUpTo(disk, st, |st.files|, prefix, map[]) == Ok(Restrict(MergedView(streams), prefix))
  {
    hide ToTable, MergedView, Restrict, PrefixUpTo;
    PrefixUpToSpec(disk, st, streams, maxLength, |streams|, prefix, map[]);
    assert streams[..|streams|] == streams;
    var r := Restrict(MergedView(streams), prefix);
    assert r + map[] == r;
  }

  // ----- compaction reads and reopening -----

  lemma {:induction false} CompactedSpec(disk: Disk, files: seq<FileId>, streams: seq<seq<Entry>>, maxLength: int, n: nat)
    requires n <= |files| == |streams|
    requires forall i :: 0 <= i < n ==>
      Storable(streams[i]) && files[i] in disk && disk[files[i]] == FileBytes(streams[i], maxLength)
    ensures CompactedUpTo(disk, files, n) == Ok(MergedView(streams[..n]))
  {
    hide ToTable, MergedView, FileBytes, FileInto, Encode, Less;
    if n > 0 {
      CompactedSpec(disk, files, streams, maxLength, n - 1);
      MergedViewInit(streams, n);
      FileIntoSpec(streams[n - 1], maxLength, MergedView(streams[..n - 1]));
    } else {
      EmptyView(streams[..0]);
    }
  }

  ghost function IndexesOf(streams: seq<seq<Entry>>, maxLength: int): seq<seq<IndexEntry>> {
    seq(|streams|, i requires 0 <= i < |streams| => IndexFor(Blocks(streams[i], maxLength)))
  }

  ghost function OffsetsOf(streams: seq<seq<Entry>>): seq<nat> {
    seq(|streams|, i requires 0 <= i < |streams| => |Encode(streams[i])|)
  }

  lemma ColumnsInit(streams: seq<seq<Entry>>, maxLength: int, n: nat)
    requires 0 < n <= |streams|
    ensures IndexesOf(streams[..n], maxLength) ==
      IndexesOf(streams[..n - 1], maxLength) + [IndexFor(Blocks(streams[n - 1], maxLength))]
    ensures OffsetsOf(streams[..n]) == OffsetsOf(streams[..n - 1]) + [|Encode(streams[n - 1])|]
  {
    hide IndexFor, Encode, Blocks;
  }

  lemma {:induction false} OpenUpToSpec(disk: Disk, m: Manifest, streams: seq<seq<Entry>>, maxLength: int, n: nat)
    requires n <= |m.fileNames| == |streams|
    requires forall i :: 0 <= i < n ==>
      Storable(streams[i]) && m.fileNames[i] in disk && disk[m.fileNames[i]] == FileBytes(streams[i], maxLength)
    ensures OpenUpTo(disk, m, n) ==
      Ok(State(m.fileNames[..n], IndexesOf(streams[..n], maxLength), OffsetsOf(streams[..n]), m))
  {
    hide FileBytes, OpenFile, Encode, Less, Blocks, IndexFor, IndexesOf, OffsetsOf;
    if n > 0 {
      OpenUpToSpec(disk, m, streams, maxLength, n - 1);
      NamedIsNotLone(streams[n - 1], maxLength);
      ColumnsInit(streams, maxLength, n);
      assert m.fileNames[..n] == m.fileNames[..n - 1] + [m.fileNames[n - 1]];
    } else {
      NoColumns(streams[..0], maxLength);
    }
  }

  lemma NoColumns(streams: seq<seq<Entry>>, maxLength: int)
    requires streams == []
    ensures IndexesOf(streams, maxLength) == [] && OffsetsOf(streams) == []
  {
  }

  lemma BackedColumns(disk: Disk, st: State, streams: seq<seq<Entry>>, maxLength: int)
    requires Backed(disk, st, streams, maxLength)
    requires OffsetsAligned(st, streams) && |st.indexOffsets| == |st.files|
    ensures st.indexBlocks == IndexesOf(streams, maxLength) && st.indexOffsets == OffsetsOf(streams)
  {
    hide FileBytes, Encode, Less, Blocks, IndexFor;
    forall i | 0 <= i < |st.files|
      ensures st.indexBlocks[i] == IndexesOf(streams, maxLength)[i]
    {
      assert BackedAt(disk, st, streams, maxLength, i);
    }
  }

  /** Reopening in manifest order rebuilds the very state held in memory, so every read after
      it answers as before. */
  lemma ReopenIsInvisible(disk: Disk, st: State, streams: seq<seq<Entry>>, maxLength: int)
    requires Backed(disk, st, streams, maxLength)
    requires OffsetsAligned(st, streams) && |st.indexOffsets| == |st.files|
    ensures OpenUpTo(disk, st.manifest, |st.manifest.fileNames|) == Ok(st)
  {
    hide FileBytes, Encode, Less, Blocks, IndexFor, OpenUpTo, IndexesOf, OffsetsOf, OffsetsAligned;
    BackedColumns(disk, st, streams, maxLength);
    forall i | 0 <= i < |streams|
      ensures Storable(streams[i]) && st.files[i] in disk && disk[st.files[i]] == FileBytes(streams[i], maxLength)
    {
      assert BackedAt(disk, st, streams, maxLength, i);
    }
    OpenUpToSpec(disk, st.manifest, streams, maxLength, |streams|);
    assert st.files[..|st.files|] == st.files && streams[..|streams|] == streams;
  }
}
