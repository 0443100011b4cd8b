/** The `SsTable` object with the fields its lock guards and the files of its directory
    (sstable/sstable.go, sstable/compaction.go). Each method is tied to the functions over
    its state that the other modules reason about. */
module SsTableStore {
  import opened ByteStrings
  import opened Tables
  import opened TableFormat
  import opened TableReaders
  import opened TableLookup
  import opened TableScans
  import opened Store
  import opened Compaction

  // ----- the loops over one file -----

  method ReadEntryAt(buf: Bytes, i: nat) returns (e: Option<Entry>, next: nat)
    requires i <= |buf|
    ensures e.Some? <==> TakeEntry(buf[i..]).Some?
    ensures e.Some? ==> i < next <= |buf| && TakeEntry(buf[i..]).value == Parsed(e.value, buf[next..])
  {
    hide Take;
    next := i;
    var k := ExtractValue(buf, next);
    if k.None? {
      return None, i;
    }
    next := next + 4 + |k.value|;
    var v := ExtractValue(buf, next);
    if v.None? {
      return None, i;
    }
    next := next + 4 + |v.value|;
    e := Some(Entry(k.value, v.value));
  }

  method GetValueFromDataBlock(file: Bytes, key: Bytes, start: nat, end: nat) returns (r: Outcome<Bytes>)
    ensures r == ReadBlock(file, key, start, end, SLACK_AS_WRITTEN)
  {
    hide TakeEntry, ReadAt;
    if end + SLACK_AS_WRITTEN < start {
      return Panic;
    }
    var buf := ReadAt(file, start, end - start + SLACK_AS_WRITTEN);
    var i := 0;
    assert buf[0..] == buf;
    while i < |buf|
      invariant i <= |buf|
      invariant ScanBlock(buf, key) == ScanBlock(buf[i..], key)
      decreases |buf| - i
    {
      var e, next := ReadEntryAt(buf, i);
      if e.None? {
        return Error;
      }
      i := next;
      if e.value.key == key {
        return Ok(e.value.value);
      }
    }
    assert buf[i..] == [];
    r := Ok([]);
  }

  method SequentialScan(file: Bytes, prefix: Bytes, start: nat, end: nat, found: Table) returns (r: Outcome<Table>)
    ensures r == ScanRange(file, start, end, prefix, found)
  {
    hide TakeEntry, ReadAt, Less, HasPrefix;
    if end < start {
      return Panic;
    }
    var buf := ReadAt(file, start, end - start);
    var i, table := 0, found;
    assert buf[0..] == buf;
    while i < |buf|
      invariant i <= |buf|
      invariant ScanPrefix(buf, prefix, found) == ScanPrefix(buf[i..], prefix, table)
      decreases |buf| - i
    {
      var e, next := ReadEntryAt(buf, i);
      if e.None? {
        return Error;
      }
      i := next;
      if HasPrefix(e.value.key, prefix) {
        if e.value.key !in table {
          table := table[e.value.key := e.value.value];
        }
      } else if Less(prefix, Cut(e.value.key, prefix)) {
        return Ok(table);
      }
    }
    assert buf[i..] == [];
    r := Ok(table);
  }

  method ReadAll(file: Bytes, found: Table) returns (r: Outcome<Table>)
    ensures r == FileInto(file, found)
  {
    hide TakeEntry;
    var footer := Footer(file);
    if !footer.Ok? || footer.value > |file| {
      return Error;
    }
    var buf := file[..footer.value];
    var i, table := 0, found;
    assert buf[0..] == buf;
    while i < |buf|
      invariant i <= |buf|
      invariant ScanAll(buf, found) == ScanAll(buf[i..], table)
      decreases |buf| - i
    {
      var e, next := ReadEntryAt(buf, i);
      if e.None? {
        return Error;
      }
      i := next;
      table := table[e.value.key := e.value.value];
    }
    assert buf[i..] == [];
    r := Ok(table);
  }

  /** How the part of an index parsed so far and the rest make up the whole. */
  function Prepend(done: seq<IndexEntry>, rest: Outcome<seq<IndexEntry>>): Outcome<seq<IndexEntry>> {
    match rest
    case Ok(index) => Ok(done + index)
    case other => other
  }

  lemma PrependNothing(rest: Outcome<seq<IndexEntry>>)
    ensures Prepend([], rest) == rest
  {
    if rest.Ok? {
      assert [] + rest.value == rest.value;
    }
  }

  lemma PrependToNothing(done: seq<IndexEntry>)
    ensures Prepend(done, Ok([])) == Ok(done)
  {
    assert done + [] == done;
  }

  lemma PrependFailed(done: seq<IndexEntry>)
    ensures Prepend(done, Error) == Error && Prepend(done, Panic) == Panic
  {
  }

  lemma PrependOne(e: IndexEntry, rest: Outcome<seq<IndexEntry>>)
    ensures Prepend([e], rest) == match rest
      case Ok(index) => Ok([e] + index)
      case other => other
  {
  }

  lemma PrependMore(done: seq<IndexEntry>, e: IndexEntry, rest: Outcome<seq<IndexEntry>>)
    ensures Prepend(done, Prepend([e], rest)) == Prepend(done + [e], rest)
  {
    if rest.Ok? {
      assert done + ([e] + rest.value) == (done + [e]) + rest.value;
    }
  }

  method ReadIndexEntryAt(buf: Bytes, start: nat) returns (r: Outcome<IndexEntry>, next: nat)
    requires start < |buf|
    ensures r.Ok? ==> start < next <= |buf| && TakeIndexEntry(buf[start..]) == Ok(ParsedIndex(r.value, buf[next..]))
    ensures r.Error? ==> TakeIndexEntry(buf[start..]) == Error
    ensures r.Panic? ==> TakeIndexEntry(buf[start..]) == Panic
  {
    hide ReadU32;
    var i := start;
    next := start;
    if i + 4 > |buf| {
      return Panic, start;
    }
    assert buf[start..][..4] == buf[i..i + 4];
    var keyLength := ReadU32(buf[i..i + 4]);
    i := i + 4;
    if i >= |buf| {
      return Error, start;
    }
    if i + keyLength > |buf| {
      return Panic, start;
    }
    var key := buf[i..i + keyLength];
    i := i + keyLength;
    if i >= |buf| {
      return Error, start;
    }
    if i + 4 > |buf| {
      return Panic, start;
    }
    assert buf[start..][4..4 + keyLength] == key;
    assert buf[start..][4 + keyLength..8 + keyLength] == buf[i..i + 4];
    next := i + 4;
    assert buf[start..][8 + keyLength..] == buf[next..];
    r := Ok(IndexEntry(key, ReadU32(buf[i..i + 4])));
  }

  method BuildIndexFromFile(file: Bytes) returns (r: Outcome<Opened>)
    ensures r == OpenFile(file)
  {
    hide TakeIndexEntry, Prepend, Footer;
    var footer := Footer(file);
    if !footer.Ok? {
      return Error;
    }
    var length := |file| - 4 - footer.value;
    if length < 0 {
      return Panic;
    }
    var buf := file[footer.value..|file| - 4];
    var i, index := 0, [];
    assert buf[0..] == buf;
    PrependNothing(ParseIndex(buf));
    while i < length
      invariant i <= length == |buf|
      invariant ParseIndex(buf) == Prepend(index, ParseIndex(buf[i..]))
      decreases length - i
    {
      var e, next := ReadIndexEntryAt(buf, i);
      PrependFailed(index);
      if !e.Ok? {
        return if e.Error? then Error else Panic;
      }
      PrependOne(e.value, ParseIndex(buf[next..]));
      PrependMore(index, e.value, ParseIndex(buf[next..]));
      index := index + [e.value];
      i := next;
    }
    assert buf[i..] == [];
    PrependToNothing(index);
    r := Ok(Opened(footer.value, index));
  }

  // ----- the object -----

  class SsTable {
    /** The data files of the directory, by the number in their name. */
    var disk: Disk
    /** What `manifest.json` holds. */
    var saved: Manifest
    var firstLevelFiles: seq<FileId>
    var indexBlocks: seq<seq<IndexEntry>>
    var indexOffsets: seq<nat>
    var manifest: Manifest
    var compacting: bool
    const blockLength: int

    function Mem(): State
      reads this
    {
      State(firstLevelFiles, indexBlocks, indexOffsets, manifest)
    }

    constructor (disk: Disk, saved: Manifest, blockLength: int)
      ensures this.disk == disk && this.saved == saved && this.blockLength == blockLength
      ensures Mem() == State([], [], [], saved) && !compacting
    {
      this.disk, this.saved, this.blockLength := disk, saved, blockLength;
      firstLevelFiles, indexBlocks, indexOffsets, manifest := [], [], [], saved;
      compacting := false;
    }

    /** The part of `NewSsTable` that reads the manifest and every file it names. */
    method LoadFiles() returns (r: Outcome<State>)
      modifies this
      ensures r == OpenUpTo(disk, saved, |saved.fileNames|)
      ensures r.Ok? ==> Mem() == r.value
      ensures disk == old(disk) && saved == old(saved) && compacting == old(compacting)
    {
      hide OpenFile;
      manifest := saved;
      firstLevelFiles, indexBlocks, indexOffsets := [], [], [];
      for i := 0 to |saved.fileNames|
        invariant disk == old(disk) && saved == old(saved) && manifest == saved && compacting == old(compacting)
        invariant OpenUpTo(disk, saved, i) == Ok(Mem())
      {
        var id := saved.fileNames[i];
        if id !in disk {
          StaysFailed(disk, saved, i + 1, Error);
          return Error;
        }
        var o := BuildIndexFromFile(disk[id]);
        if !o.Ok? {
          r := if o.Error? then Error else Panic;
          StaysFailed(disk, saved, i + 1, r);
          return;
        }
        firstLevelFiles := firstLevelFiles + [id];
        indexBlocks := indexBlocks + [o.value.index];
        indexOffsets := indexOffsets + [o.value.indexOffset];
      }
      r := Ok(Mem());
    }

    /** The file is opened for appending: one left on disk under this name keeps its bytes. */
    method NewFile() returns (id: FileId)
      modifies this
      ensures id == old(manifest).nextFileId
      ensures Mem() == old(Mem()).(manifest := old(manifest).(nextFileId := id + 1))
      ensures disk == old(disk)[id := Contents(old(disk), id)]
      ensures saved == old(saved) && compacting == old(compacting)
    {
      id := manifest.nextFileId;
      manifest := manifest.(nextFileId := id + 1);
      disk := disk[id := Contents(disk, id)];
    }

    method Write(id: FileId, stream: seq<Entry>)
      requires id in disk
      modifies this
      ensures disk == old(disk)[id := old(disk)[id] + FileBytes(stream, blockLength)]
      ensures Mem() == AddFile(old(Mem()), id, IndexFor(Blocks(stream, blockLength)), |Encode(stream)|)
      ensures saved == manifest && compacting == old(compacting)
    {
      hide FileBytes, Blocks, IndexFor, Encode;
      var written, indexOffset, index := WriteToFile(stream, blockLength);
      disk := disk[id := disk[id] + written];
      firstLevelFiles := firstLevelFiles + [id];
      indexBlocks := indexBlocks + [index];
      manifest := manifest.(fileNames := manifest.fileNames + [id]);
      indexOffsets := indexOffsets + [indexOffset];
      saved := manifest;
    }

    /** One file of `Get`. */
    method GetFromFile(i: nat, key: Bytes) returns (r: Outcome<Bytes>)
      requires Mem().Readable() && i < |firstLevelFiles|
      ensures r == FileGet(Contents(disk, firstLevelFiles[i]), indexBlocks[i], indexOffsets[i], key, SLACK_AS_WRITTEN)
    {
      hide ReadBlock, Contents, LowerBound;
      var index := indexBlocks[i];
      var j := GetLowerBound(key, index);
      if j == -1 {
        return Ok([]);
      }
      var end := indexOffsets[i];
      if j < |index| - 1 {
        end := index[j + 1].offset;
      }
      r := GetValueFromDataBlock(Contents(disk, firstLevelFiles[i]), key, index[j].offset, end);
    }

    method Get(key: Bytes) returns (r: Outcome<Bytes>)
      requires Mem().Readable()
      ensures r == GetUpTo(disk, Mem(), |firstLevelFiles|, key, SLACK_AS_WRITTEN)
    {
      hide FileGet, Contents;
      var i: nat := |firstLevelFiles|;
      while i > 0
        invariant i <= |firstLevelFiles|
        invariant GetUpTo(disk, Mem(), |firstLevelFiles|, key, SLACK_AS_WRITTEN) ==
          GetUpTo(disk, Mem(), i, key, SLACK_AS_WRITTEN)
      {
        r := GetFromFile(i - 1, key);
        if r != Ok([]) {
          return;
        }
        i := i - 1;
      }
      r := Ok([]);
    }

    /** One file of `PrefixScan`. */
    method ScanFile(i: nat, prefix: Bytes, found: Table) returns (r: Outcome<Table>)
      requires Mem().Readable() && i < |firstLevelFiles|
      ensures r == FilePrefix(Contents(disk, firstLevelFiles[i]), indexBlocks[i], indexOffsets[i], prefix, found)
    {
      hide ScanRange, Contents, LowerBound, HasPrefix;
      var index := indexBlocks[i];
      var j := GetLowerBound(prefix, index);
      if j == -1 {
        if |index| == 0 || !HasPrefix(index[0].key, prefix) {
          return Ok(found);
        }
        j := 0;
      }
      r := SequentialScan(Contents(disk, firstLevelFiles[i]), prefix, index[j].offset, indexOffsets[i], found);
    }

    method PrefixScan(prefix: Bytes) returns (r: Outcome<Table>)
      requires Mem().Readable()
      ensures r == PrefixUpTo(disk, Mem(), |firstLevelFiles|, prefix, map[])
    {
      hide FilePrefix, Contents;
      var i: nat, found: Table := |firstLevelFiles|, map[];
      while i > 0
        invariant i <= |firstLevelFiles|
        invariant PrefixUpTo(disk, Mem(), |firstLevelFiles|, prefix, map[]) == PrefixUpTo(disk, Mem(), i, prefix, found)
      {
        r := ScanFile(i - 1, prefix, found);
        if !r.Ok? {
          return;
        }
        found := r.value;
        i := i - 1;
      }
      r := Ok(found);
    }

    predicate ShouldRunCompaction()
      reads this
    {
      !compacting && |firstLevelFiles| >= 4
    }

    method BuildCompactedMap(files: seq<FileId>) returns (r: Outcome<Table>)
      ensures r == CompactedUpTo(disk, files, |files|)
    {
      var found: Table := map[];
      for i := 0 to |files|
        invariant CompactedUpTo(disk, files, i) == Ok(found)
      {
        if files[i] !in disk {
          CompactionStaysFailed(disk, files, i + 1, Panic);
          return Panic;
        }
        r := ReadAll(disk[files[i]], found);
        if !r.Ok? {
          CompactionStaysFailed(disk, files, i + 1, r);
          return;
        }
        found := r.value;
      }
      r := Ok(found);
    }

    method AtomicSwap(compacted: FileId, snapshot: seq<FileId>, index: seq<IndexEntry>, offset: nat)
      requires Mem().Readable()
      modifies this
      ensures Mem() == Swap(old(Mem()), compacted, snapshot, index, offset, STORES_OFFSETS_AS_WRITTEN)
      ensures saved == manifest && disk == old(disk) && compacting == old(compacting)
    {
      var gone := IdSet(snapshot);
      var keptFiles, keptBlocks, keptOffsets := [], [], [];
      for i := 0 to |firstLevelFiles|
        invariant Mem() == old(Mem()) && disk == old(disk) && compacting == old(compacting)
        invariant keptFiles == Keep(firstLevelFiles[..i], firstLevelFiles[..i], gone)
        invariant keptBlocks == Keep(firstLevelFiles[..i], indexBlocks[..i], gone)
        invariant keptOffsets == Keep(firstLevelFiles[..i], indexOffsets[..i], gone)
      {
        assert firstLevelFiles[..i + 1][..i] == firstLevelFiles[..i];
        assert indexBlocks[..i + 1][..i] == indexBlocks[..i];
        assert indexOffsets[..i + 1][..i] == indexOffsets[..i];
        if firstLevelFiles[i] !in gone {
          keptFiles := keptFiles + [firstLevelFiles[i]];
          keptBlocks := keptBlocks + [indexBlocks[i]];
          keptOffsets := keptOffsets + [indexOffsets[i]];
        }
      }
      assert firstLevelFiles[..|firstLevelFiles|] == firstLevelFiles;
      assert indexBlocks[..|firstLevelFiles|] == indexBlocks;
      // the code assembles [offset] + keptOffsets as well and never stores it
      firstLevelFiles := [compacted] + keptFiles;
      indexBlocks := [index] + keptBlocks;
      manifest := manifest.(fileNames := firstLevelFiles);
      saved := manifest;
    }

    method MergeFiles(files: seq<FileId>) returns (r: Option<seq<Entry>>)
      ensures r == if MergePanics(disk, files) then None else Some(MergedEntries(disk, files))
    {
      hide CompactedUpTo, Ascend;
      var merged := BuildCompactedMap(files);
      r := if merged.Panic? then None else Some(Ascend(if merged.Ok? then merged.value else map[]));
    }

    /** A compaction with no flush in between. It ends in the middle, and the process with it,
        when a file it is to merge is gone. */
    method RunCompaction() returns (ended: bool)
      requires Mem().Readable()
      modifies this
      ensures ended == !MergePanics(old(disk), old(firstLevelFiles))
      ensures ended ==> Mem() == RunState(old(disk), old(Mem()), blockLength)
      ensures ended ==> disk == RunDisk(old(disk), old(Mem()), blockLength)
      ensures ended ==> saved == manifest && !compacting
      ensures !ended ==> Mem() == old(Mem()) && disk == old(disk) && saved == old(saved) && compacting
    {
      hide FileBytes, Blocks, IndexFor, Encode, Swap, MergedEntries, MergePanics, IdSet;
      compacting := true;
      var snapshot := firstLevelFiles;
      var merged := MergeFiles(snapshot);
      if merged.None? {
        return false;
      }
      var s := merged.value;
      var id := NewFile();
      var written, offset, index := WriteToFile(s, blockLength);
      disk := disk[id := disk[id] + written];
      AtomicSwap(id, snapshot, index, offset);
      disk := disk - IdSet(snapshot);
      compacting := false;
      ended := true;
    }
  }

  lemma {:induction false} StaysFailed(disk: Disk, m: Manifest, n: nat, r: Outcome<State>)
    requires 0 < n <= |m.fileNames| && OpenUpTo(disk, m, n) == r && !r.Ok?
    ensures OpenUpTo(disk, m, |m.fileNames|) == r
    decreases |m.fileNames| - n
  {
    if n < |m.fileNames| {
      StaysFailed(disk, m, n + 1, r);
    }
  }

  lemma {:induction false} CompactionStaysFailed(disk: Disk, files: seq<FileId>, n: nat, r: Outcome<Table>)
    requires n <= |files| && CompactedUpTo(disk, files, n) == r && !r.Ok?
    ensures CompactedUpTo(disk, files, |files|) == r
    decreases |files| - n
  {
    if n < |files| {
      CompactionStaysFailed(disk, files, n + 1, r);
    }
  }
}
