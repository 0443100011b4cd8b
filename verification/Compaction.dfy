/** The atomic swap that ends a compaction (sstable/compaction.go): what it keeps, exactly
    which snapshots it is safe for, and what its forgotten `indexOffsets` do to the readers. */
module Compaction {
  import opened ByteStrings
  import opened Tables
  import opened TableFormat
  import opened TableReaders
  import opened TableLookup
  import opened TableScans
  import opened Store
  import opened StaleOffsets
  import opened StaleReads

  /** `atomicSwap` builds `swappedIndexOffsets` but never stores it. */
  const STORES_OFFSETS_AS_WRITTEN: bool := false

  // ----- the swap -----

  /** The entries of `xs` that belong to files outside the snapshot, in their order. */
  function Keep<T>(files: seq<FileId>, xs: seq<T>, gone: set<FileId>): (r: seq<T>)
    requires |files| <= |xs|
    ensures |r| <= |files|
  {
    if files == [] then []
    else
      var n := |files| - 1;
      Keep(files[..n], xs[..n], gone) + if files[n] in gone then [] else [xs[n]]
  }

  function IdSet(files: seq<FileId>): set<FileId> {
    set f | f in files
  }

  function Swap(st: State, compacted: FileId, snapshot: seq<FileId>, index: seq<IndexEntry>, offset: nat,
                storesOffsets: bool): State
    requires st.Readable()
  {
    var gone := IdSet(snapshot);
    var files := [compacted] + Keep(st.files, st.files, gone);
    State(files,
          [index] + Keep(st.files, st.indexBlocks, gone),
          if storesOffsets then [offset] + Keep(st.files, st.indexOffsets, gone) else st.indexOffsets,
          st.manifest.(fileNames := files))
  }

  /** The bookkeeping of `Write`: the new file goes last. */
  function AddFile(st: State, id: FileId, index: seq<IndexEntry>, offset: nat): State {
    State(st.files + [id], st.indexBlocks + [index], st.indexOffsets + [offset],
          st.manifest.(fileNames := st.manifest.fileNames + [id]))
  }

  // ----- a compaction with nothing in between -----

  /** Merging reads a file that is gone: the process ends. */
  predicate MergePanics(disk: Disk, files: seq<FileId>) {
    CompactedUpTo(disk, files, |files|).Panic?
  }

  /** A merge that fails with an error is logged and the compaction carries on with an empty
      map. */
  function MergedEntries(disk: Disk, files: seq<FileId>): seq<Entry> {
    var merged := CompactedUpTo(disk, files, |files|);
    Ascend(if merged.Ok? then merged.value else map[])
  }

  /** Opening a file for appending creates it or leaves what it holds, unless new files are
      made to start empty. */
  function Touch(disk: Disk, id: FileId, startsEmpty: bool): Disk {
    disk[id := if startsEmpty then [] else Contents(disk, id)]
  }

  function RunState(disk: Disk, st: State, maxLength: int): State
    requires st.Readable()
  {
    var id := st.manifest.nextFileId;
    var s := MergedEntries(disk, st.files);
    Swap(st.(manifest := st.manifest.(nextFileId := id + 1)), id, st.files,
         IndexFor(Blocks(s, maxLength)), |Encode(s)|, STORES_OFFSETS_AS_WRITTEN)
  }

  function RunDisk(disk: Disk, st: State, maxLength: int): Disk {
    var id := st.manifest.nextFileId;
    var s := MergedEntries(disk, st.files);
    disk[id := Contents(disk, id) + FileBytes(s, maxLength)] - IdSet(st.files)
  }

  ghost predicate Distinct(files: seq<FileId>) {
    forall i, j :: 0 <= i < j < |files| ==> files[i] != files[j]
  }

  lemma {:induction false} KeepAll<T>(files: seq<FileId>, xs: seq<T>, gone: set<FileId>)
    requires |files| <= |xs|
    requires forall f :: f in files ==> f !in gone
    ensures Keep(files, xs, gone) == xs[..|files|]
  {
    if files != [] {
      var n := |files| - 1;
      KeepAll(files[..n], xs[..n], gone);
      assert files[n] in files;
    }
  }

  lemma {:induction false} KeepNone<T>(files: seq<FileId>, xs: seq<T>, gone: set<FileId>)
    requires |files| <= |xs|
    requires forall f :: f in files ==> f in gone
    ensures Keep(files, xs, gone) == []
  {
    if files != [] {
      var n := |files| - 1;
      KeepNone(files[..n], xs[..n], gone);
      assert files[n] in files;
    }
  }

  lemma {:induction false} KeepSplit<T>(files: seq<FileId>, xs: seq<T>, gone: set<FileId>, n: nat)
    requires n <= |files| <= |xs|
    ensures Keep(files, xs, gone) == Keep(files[..n], xs[..n], gone) + Keep(files[n..], xs[n..], gone)
  {
    if n == |files| {
      assert files[..n] == files;
      KeepPrefix(files, xs, gone);
    } else {
      var m := |files| - 1;
      KeepSplit(files[..m], xs[..m], gone, n);
      assert files[..m][..n] == files[..n] && xs[..m][..n] == xs[..n];
      assert files[n..][..m - n] == files[..m][n..] && xs[n..][..m - n] == xs[..m][n..];
    }
  }

  lemma KeepPrefix<T>(files: seq<FileId>, xs: seq<T>, gone: set<FileId>)
    requires |files| <= |xs|
    ensures Keep(files, xs[..|files|], gone) == Keep(files, xs, gone)
  {
    if files != [] {
      var n := |files| - 1;
      assert xs[..|files|][..n] == xs[..n];
    }
  }

  /** Dropping a prefix of the list keeps exactly the rest. */
  lemma KeepAfterPrefix<T>(files: seq<FileId>, xs: seq<T>, n: nat)
    requires Distinct(files) && n <= |files| <= |xs|
    ensures Keep(files, xs, IdSet(files[..n])) == xs[n..|files|]
  {
    hide Keep;
    KeepSplit(files, xs, IdSet(files[..n]), n);
    KeepNone(files[..n], xs[..n], IdSet(files[..n]));
    forall f | f in files[n..]
      ensures f !in IdSet(files[..n])
    {
    }
    KeepAll(files[n..], xs[n..], IdSet(files[..n]));
    assert xs[n..][..|files| - n] == xs[n..|files|];
  }

  /** A compaction of the first n files, however many files were added after its snapshot. */
  lemma SwapOfPrefix(st: State, n: nat, compacted: FileId, index: seq<IndexEntry>, offset: nat, storesOffsets: bool)
    requires st.Readable() && Distinct(st.files) && n <= |st.files|
    ensures var files := [compacted] + st.files[n..];
      Swap(st, compacted, st.files[..n], index, offset, storesOffsets) ==
      State(files, [index] + st.indexBlocks[n..],
            if storesOffsets then [offset] + st.indexOffsets[n..|st.files|] else st.indexOffsets,
            st.manifest.(fileNames := files))
  {
    hide Keep, IdSet;
    KeepAfterPrefix(st.files, st.files, n);
    KeepAfterPrefix(st.files, st.indexBlocks, n);
    KeepAfterPrefix(st.files, st.indexOffsets, n);
    assert st.files[n..|st.files|] == st.files[n..];
    assert st.indexBlocks[n..|st.files|] == st.indexBlocks[n..];
  }

  // ----- the swap keeps the view -----

  /** The file a compaction writes for the first n streams. */
  ghost function CompactedStream(streams: seq<seq<Entry>>, n: nat): seq<Entry>
    requires n <= |streams|
  {
    Ascend(MergedView(streams[..n]))
  }

  /** A snapshot the list has only been appended to since. */
  predicate IsPrefix(snapshot: seq<FileId>, files: seq<FileId>) {
    |snapshot| <= |files| && files[..|snapshot|] == snapshot
  }

  ghost function AfterSwap(streams: seq<seq<Entry>>, n: nat): seq<seq<Entry>>
    requires n <= |streams|
  {
    [CompactedStream(streams, n)] + streams[n..]
  }

  /** The merged view is the same before and after. */
  lemma SwapKeepsView(streams: seq<seq<Entry>>, n: nat)
    requires n <= |streams|
    ensures MergedView(AfterSwap(streams, n)) == MergedView(streams)
  {
    hide MergedView, Ascend, ToTable;
    MergedViewConcat([CompactedStream(streams, n)], streams[n..]);
    MergedViewSingle(CompactedStream(streams, n));
    AscendTable(MergedView(streams[..n]));
    MergedViewConcat(streams[..n], streams[n..]);
    assert streams == streams[..n] + streams[n..];
  }

  /** Files, index blocks and manifest stay aligned entry by entry. */
  lemma SwapKeepsBacking(disk: Disk, st: State, streams: seq<seq<Entry>>, maxLength: int, n: nat, compacted: FileId,
                         storesOffsets: bool)
    requires Backed(disk, st, streams, maxLength) && Distinct(st.files) && 1 <= n <= |streams|
    requires Storable(CompactedStream(streams, n))
    requires compacted in disk && disk[compacted] == FileBytes(CompactedStream(streams, n), maxLength)
    ensures var s := CompactedStream(streams, n);
      Backed(disk, Swap(st, compacted, st.files[..n], IndexFor(Blocks(s, maxLength)), |Encode(s)|, storesOffsets),
             AfterSwap(streams, n), maxLength)
  {
    hide CompactedStream, FileBytes, Blocks, IndexFor, Encode, Storable, Swap;
    var s := CompactedStream(streams, n);
    SwapOfPrefix(st, n, compacted, IndexFor(Blocks(s, maxLength)), |Encode(s)|, storesOffsets);
    var st' := Swap(st, compacted, st.files[..n], IndexFor(Blocks(s, maxLength)), |Encode(s)|, storesOffsets);
    forall i | 0 <= i < |st'.files|
      ensures BackedAt(disk, st', AfterSwap(streams, n), maxLength, i)
    {
      if i > 0 {
        assert BackedAt(disk, st, streams, maxLength, n + i - 1);
      }
    }
  }

  /** With the offsets stored, as the comment above `atomicSwap` intends, they stay aligned. */
  lemma SwapKeepsOffsets(disk: Disk, st: State, streams: seq<seq<Entry>>, maxLength: int, n: nat, compacted: FileId)
    requires Backed(disk, st, streams, maxLength) && Distinct(st.files) && 1 <= n <= |streams|
    requires OffsetsAligned(st, streams) && |st.indexOffsets| == |st.files|
    ensures var s := CompactedStream(streams, n);
      var st' := Swap(st, compacted, st.files[..n], IndexFor(Blocks(s, maxLength)), |Encode(s)|, true);
      OffsetsAligned(st', AfterSwap(streams, n)) && |st'.indexOffsets| == |st'.files|
  {
    hide CompactedStream, BackedAt, Blocks, IndexFor, Encode, Swap;
    var s := CompactedStream(streams, n);
    SwapOfPrefix(st, n, compacted, IndexFor(Blocks(s, maxLength)), |Encode(s)|, true);
  }

  // ----- the offsets the code forgets -----

  /** Entry by entry with equal lengths they are never aligned after a real compaction. */
  lemma ForgottenOffsetsNeverMatch(st: State, n: nat, compacted: FileId, index: seq<IndexEntry>, offset: nat)
    requires st.Readable() && Distinct(st.files) && 2 <= n <= |st.files|
    ensures var st' := Swap(st, compacted, st.files[..n], index, offset, STORES_OFFSETS_AS_WRITTEN);
      |st'.indexOffsets| > |st'.files|
  {
    hide Swap;
    SwapOfPrefix(st, n, compacted, index, offset, false);
  }

  /** After the swap as written the reader of the i-th file takes for its end that of the file
      that stood there before. */
  lemma SwapMisplacesEnds(disk: Disk, st: State, streams: seq<seq<Entry>>, maxLength: int, n: nat, compacted: FileId,
                          index: seq<IndexEntry>, offset: nat, i: nat)
    requires Backed(disk, st, streams, maxLength) && Distinct(st.files) && 1 <= n <= |streams|
    requires OffsetsAligned(st, streams) && i < |AfterSwap(streams, n)|
    ensures i < |streams| <= |st.indexOffsets|
    ensures Swap(st, compacted, st.files[..n], index, offset, STORES_OFFSETS_AS_WRITTEN).indexOffsets[i] == |Encode(streams[i])|
  {
    hide CompactedStream, BackedAt, Encode, Swap;
    SwapOfPrefix(st, n, compacted, index, offset, false);
  }

  /** What that does to `Get` in each file: a key with a value is found if and only if it lies
      outside the file's last block, or ends no more than one byte after the data of the file
      that stood there before. */
  lemma SwapThenFileGetIff(disk: Disk, st: State, streams: seq<seq<Entry>>, maxLength: int, n: nat, compacted: FileId,
                           i: nat, k: nat)
    requires Backed(disk, st, streams, maxLength) && Distinct(st.files) && 1 <= n <= |streams| && OffsetsAligned(st, streams)
    requires Storable(CompactedStream(streams, n))
    requires compacted in disk && disk[compacted] == FileBytes(CompactedStream(streams, n), maxLength)
    requires i < |AfterSwap(streams, n)| && k < |AfterSwap(streams, n)[i]| && AfterSwap(streams, n)[i][k].value != []
    ensures var s, t := CompactedStream(streams, n), AfterSwap(streams, n)[i];
      var st' := Swap(st, compacted, st.files[..n], IndexFor(Blocks(s, maxLength)), |Encode(s)|, STORES_OFFSETS_AS_WRITTEN);
      && i < |streams| && i < |st'.files| == |st'.indexBlocks| && i < |st'.indexOffsets|
      && (FileGet(Contents(disk, st'.files[i]), st'.indexBlocks[i], st'.indexOffsets[i], t[k].key, SLACK_AS_WRITTEN) == Ok(t[k].value)
         <==> k < LastStart(t, maxLength) || |Encode(t[..k + 1])| <= |Encode(streams[i])| + SLACK_AS_WRITTEN)
  {
    hide CompactedStream, Blocks, IndexFor, Encode, Swap, FileBytes, Storable, FileGet, LastStart, AfterSwap;
    var s, t := CompactedStream(streams, n), AfterSwap(streams, n)[i];
    var index := IndexFor(Blocks(s, maxLength));
    var st' := Swap(st, compacted, st.files[..n], index, |Encode(s)|, STORES_OFFSETS_AS_WRITTEN);
    SwapMisplacesEnds(disk, st, streams, maxLength, n, compacted, index, |Encode(s)|, i);
    SwapKeepsBacking(disk, st, streams, maxLength, n, compacted, STORES_OFFSETS_AS_WRITTEN);
    assert BackedAt(disk, st', AfterSwap(streams, n), maxLength, i);
    StaleGetIff(t, maxLength, |Encode(streams[i])|, k, SLACK_AS_WRITTEN);
  }

  /** The list after the swap as written of a compaction of the first n files. */
  ghost function AsSwapped(st: State, streams: seq<seq<Entry>>, maxLength: int, n: nat, compacted: FileId): State
    requires st.Readable() && n <= |st.files| && n <= |streams|
  {
    var s := CompactedStream(streams, n);
    Swap(st, compacted, st.files[..n], IndexFor(Blocks(s, maxLength)), |Encode(s)|, STORES_OFFSETS_AS_WRITTEN)
  }

  lemma AsSwappedShape(disk: Disk, st: State, streams: seq<seq<Entry>>, maxLength: int, n: nat, compacted: FileId)
    requires Backed(disk, st, streams, maxLength) && Distinct(st.files) && 1 <= n <= |streams|
    requires OffsetsAligned(st, streams) && |st.indexOffsets| == |st.files|
    requires Storable(CompactedStream(streams, n))
    requires compacted in disk && disk[compacted] == FileBytes(CompactedStream(streams, n), maxLength)
    ensures Backed(disk, AsSwapped(st, streams, maxLength, n, compacted), AfterSwap(streams, n), maxLength)
    ensures AsSwapped(st, streams, maxLength, n, compacted).indexOffsets == OffsetsOf(streams)
    ensures |AsSwapped(st, streams, maxLength, n, compacted).files| == |AfterSwap(streams, n)| <= |streams|
    ensures MergedView(AfterSwap(streams, n)) == MergedView(streams)
  {
    hide CompactedStream, BackedAt, Blocks, IndexFor, Encode, Swap, FileBytes, Storable, MergedView;
    var s := CompactedStream(streams, n);
    SwapOfPrefix(st, n, compacted, IndexFor(Blocks(s, maxLength)), |Encode(s)|, false);
    SwapKeepsBacking(disk, st, streams, maxLength, n, compacted, STORES_OFFSETS_AS_WRITTEN);
    SwapKeepsView(streams, n);
    assert st.indexOffsets == OffsetsOf(streams);
  }

  /** `Get` of any key after the swap as written, of any number of files with any number of
      newer ones behind them: it is what it was before, the lookup in the merged view, if and
      only if the search comes to that value when the i-th file is read up to where the i-th
      file before the swap ended. */
  lemma SwapThenGetIff(disk: Disk, st: State, streams: seq<seq<Entry>>, maxLength: int, n: nat, compacted: FileId, key: Bytes)
    requires Backed(disk, st, streams, maxLength) && Distinct(st.files) && 1 <= n <= |streams|
    requires OffsetsAligned(st, streams) && |st.indexOffsets| == |st.files|
    requires Storable(CompactedStream(streams, n))
    requires compacted in disk && disk[compacted] == FileBytes(CompactedStream(streams, n), maxLength)
    ensures AsSwapped(st, streams, maxLength, n, compacted).Readable()
    ensures |AsSwapped(st, streams, maxLength, n, compacted).files| == |AfterSwap(streams, n)|
    ensures Ends(OffsetsOf(streams), AfterSwap(streams, n))
    ensures GetUpTo(disk, AsSwapped(st, streams, maxLength, n, compacted), |AfterSwap(streams, n)|, key, SLACK_AS_WRITTEN) ==
        Ok(Lookup(MergedView(streams), key))
      <==> Finds(AfterSwap(streams, n), OffsetsOf(streams), maxLength, |AfterSwap(streams, n)|, key, SLACK_AS_WRITTEN,
                 Lookup(MergedView(streams), key))
  {
    hide CompactedStream, BackedAt, FileBytes, Storable, MergedView, AsSwapped, AfterSwap, OffsetsOf, Finds, GetUpTo, Encode;
    AsSwappedShape(disk, st, streams, maxLength, n, compacted);
    OffsetsLength(streams);
    GetFindsIff(disk, AsSwapped(st, streams, maxLength, n, compacted), AfterSwap(streams, n), maxLength, |AfterSwap(streams, n)|,
                key, SLACK_AS_WRITTEN, Lookup(MergedView(streams), key));
  }

  lemma OffsetsLength(streams: seq<seq<Entry>>)
    ensures |OffsetsOf(streams)| == |streams|
  {
  }

  /** Likewise `PrefixScan` after the swap as written. */
  lemma SwapThenScanIff(disk: Disk, st: State, streams: seq<seq<Entry>>, maxLength: int, n: nat, compacted: FileId, prefix: Bytes)
    requires Backed(disk, st, streams, maxLength) && Distinct(st.files) && 1 <= n <= |streams|
    requires OffsetsAligned(st, streams) && |st.indexOffsets| == |st.files|
    requires Storable(CompactedStream(streams, n))
    requires compacted in disk && disk[compacted] == FileBytes(CompactedStream(streams, n), maxLength)
    ensures AsSwapped(st, streams, maxLength, n, compacted).Readable()
    ensures |AsSwapped(st, streams, maxLength, n, compacted).files| == |AfterSwap(streams, n)|
    ensures Ends(OffsetsOf(streams), AfterSwap(streams, n))
    ensures PrefixUpTo(disk, AsSwapped(st, streams, maxLength, n, compacted), |AfterSwap(streams, n)|, prefix, map[]) ==
        Ok(Restrict(MergedView(streams), prefix))
      <==> ScanIsRight(AfterSwap(streams, n), OffsetsOf(streams), maxLength, map[], prefix)
  {
    hide CompactedStream, BackedAt, FileBytes, Storable, MergedView, AsSwapped, AfterSwap, OffsetsOf, ScanIsRight, PrefixUpTo, Encode,
      Restrict;
    AsSwappedShape(disk, st, streams, maxLength, n, compacted);
    OffsetsLength(streams);
    ScanAnyEndsIff(disk, AsSwapped(st, streams, maxLength, n, compacted), AfterSwap(streams, n), maxLength, map[], prefix);
    OverNothing(PrefixUpTo(disk, AsSwapped(st, streams, maxLength, n, compacted), |AfterSwap(streams, n)|, prefix, map[]), prefix);
    assert MergedView(streams) + map[] == MergedView(streams);
  }

  lemma OverNothing(r: Outcome<Table>, prefix: Bytes)
    ensures Under(r, Restrict(map[], prefix)) == r
  {
    if r.Ok? {
      assert r.value + Restrict(map[], prefix) == r.value;
    }
  }
}
