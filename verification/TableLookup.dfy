/** What the readers of one written SSTable file find in it: the one chosen block decides a
    point lookup, the scan from the lower-bound block decides a prefix query, and reopening
    the file rebuilds what its writer held in memory. */
module TableLookup {
  import opened ByteStrings
  import opened Tables
  import opened TableFormat
  import opened TableReaders

  /** A stream a memtable or a compaction hands to the writer: strictly ascending, no empty
      key, and small enough for the 32-bit footer. */
  ghost predicate Storable(s: seq<Entry>) {
    Sorted(s) && NoEmptyKey(s) && |Encode(s)| < U32_LIMIT
  }

  // ----- where the blocks of a stream lie -----

  function Start(blocks: seq<Block>, j: nat): nat
    requires j <= |blocks|
  {
    |Flat(blocks[..j])|
  }

  ghost predicate Laid(blocks: seq<Block>, s: seq<Entry>) {
    Flat(blocks) == s && forall j :: 0 <= j < |blocks| ==> blocks[j] != []
  }

  lemma FlatTake(blocks: seq<Block>, j: nat)
    requires j < |blocks|
    ensures Flat(blocks[..j + 1]) == Flat(blocks[..j]) + blocks[j]
  {
    assert blocks[..j + 1][..j] == blocks[..j];
  }

  lemma FlatDrop(blocks: seq<Block>, j: nat)
    requires j < |blocks|
    ensures Flat(blocks[j..]) == blocks[j] + Flat(blocks[j + 1..])
  {
    assert blocks[j..] == [blocks[j]] + blocks[j + 1..];
    FlatConcat([blocks[j]], blocks[j + 1..]);
    FlatSingle(blocks[j]);
  }

  lemma FlatHalves(blocks: seq<Block>, j: nat)
    requires j <= |blocks|
    ensures Flat(blocks) == Flat(blocks[..j]) + Flat(blocks[j..])
  {
    assert blocks == blocks[..j] + blocks[j..];
    FlatConcat(blocks[..j], blocks[j..]);
  }

  lemma {:induction false} StartMonotone(blocks: seq<Block>, i: nat, j: nat)
    requires i <= j <= |blocks|
    ensures Start(blocks, i) <= Start(blocks, j)
  {
    if i < j {
      FlatTake(blocks, j - 1);
      StartMonotone(blocks, i, j - 1);
    }
  }

  /** A block is a slice of the stream. */
  lemma BlockAt(blocks: seq<Block>, s: seq<Entry>, j: nat)
    requires Laid(blocks, s) && j < |blocks|
    ensures Start(blocks, j) + |blocks[j]| == Start(blocks, j + 1) <= |s|
    ensures blocks[j] == s[Start(blocks, j)..Start(blocks, j + 1)]
  {
    FlatTake(blocks, j);
    FlatDrop(blocks, j);
    FlatHalves(blocks, j);
    assert s == Flat(blocks[..j]) + blocks[j] + Flat(blocks[j + 1..]);
  }

  /** A stream without empty keys is kept whole and every block is labelled with its first key. */
  lemma NamedBlocks(s: seq<Entry>, maxLength: int)
    requires NoEmptyKey(s)
    ensures Laid(Blocks(s, maxLength), s)
    ensures forall j :: 0 <= j < |Blocks(s, maxLength)| ==>
      Label(Blocks(s, maxLength)[j]) == Blocks(s, maxLength)[j][0].key
  {
    var c := CutUp(s, maxLength);
    var blocks: seq<Block> := Blocks(s, maxLength);
    CutUpFlat(s, maxLength);
    CutUpSizes(s, maxLength);
    if c.open != [] {
      assert s[|Flat(c.closed)|] == c.open[0];
      assert Label(c.open) != [];
      FlatConcat(c.closed, [c.open]);
      FlatSingle(c.open);
    }
    forall j | 0 <= j < |blocks|
      ensures blocks[j] != []
    {
      assert j < |c.closed| ==> Closed(c.closed[j], maxLength);
    }
    assert Flat(blocks) == s;
    forall j | 0 <= j < |blocks|
      ensures Label(blocks[j]) == blocks[j][0].key
    {
      BlockAt(blocks, s, j);
      assert blocks[j][0] == s[Start(blocks, j)];
    }
  }

  lemma LabelsAscend(s: seq<Entry>, maxLength: int)
    requires Sorted(s) && NoEmptyKey(s)
    ensures IndexSorted(IndexFor(Blocks(s, maxLength)))
  {
    var blocks := Blocks(s, maxLength);
    NamedBlocks(s, maxLength);
    forall i, j | 0 <= i < j < |blocks|
      ensures Less(Label(blocks[i]), Label(blocks[j]))
    {
      BlockAt(blocks, s, i);
      BlockAt(blocks, s, j);
      StartMonotone(blocks, i + 1, j);
      assert blocks[i][0] == s[Start(blocks, i)] && blocks[j][0] == s[Start(blocks, j)];
    }
  }

  // ----- point lookup -----

  /** A key of the stream lies in the block the lower bound picks. */
  lemma InChosenBlock(s: seq<Entry>, maxLength: int, j: nat, t: nat)
    requires Sorted(s) && NoEmptyKey(s) && t < |s|
    requires IsLowerBound(s[t].key, IndexFor(Blocks(s, maxLength)), j)
    ensures Start(Blocks(s, maxLength), j) <= t < Start(Blocks(s, maxLength), j + 1)
  {
    hide Blocks, Flat, Label, Less, Encode;
    var blocks: seq<Block> := Blocks(s, maxLength);
    NamedBlocks(s, maxLength);
    BlockAt(blocks, s, j);
    assert blocks[j][0] == s[Start(blocks, j)];
    if t < Start(blocks, j) {
      LessAsymmetric(s[t].key, s[Start(blocks, j)].key);
    }
    if j + 1 < |blocks| {
      BlockAt(blocks, s, j + 1);
      assert blocks[j + 1][0] == s[Start(blocks, j + 1)];
      assert Less(s[t].key, IndexFor(blocks)[j + 1].key);
      LessAsymmetric(s[t].key, s[Start(blocks, j + 1)].key);
    } else {
      assert blocks[..|blocks|] == blocks;
    }
  }

  /** A sorted slice of a sorted stream agrees with it on the keys inside the slice. */
  lemma SliceLookup(s: seq<Entry>, lo: nat, hi: nat, key: Bytes)
    requires Sorted(s) && lo <= hi <= |s|
    requires forall t :: 0 <= t < |s| && s[t].key == key ==> lo <= t < hi
    ensures key in ToTable(s) <==> key in ToTable(s[lo..hi])
    ensures key in ToTable(s) ==> ToTable(s)[key] == ToTable(s[lo..hi])[key]
  {
    hide ToTable, Less;
    ToTableKeys(s[lo..hi], key);
    ToTableKeys(s, key);
    if key in ToTable(s) {
      var t :| 0 <= t < |s| && s[t].key == key;
      assert s[lo..hi][t - lo] == s[t];
      ToTableAt(s, t);
      ToTableAt(s[lo..hi], t - lo);
    }
  }

  /** The only block that can hold a key is the one the lower bound picks. */
  lemma OneBlockDecides(s: seq<Entry>, maxLength: int, key: Bytes, j: nat)
    requires Sorted(s) && NoEmptyKey(s)
    requires IsLowerBound(key, IndexFor(Blocks(s, maxLength)), j)
    ensures Sorted(Blocks(s, maxLength)[j])
    ensures key in ToTable(s) <==> key in ToTable(Blocks(s, maxLength)[j])
    ensures key in ToTable(s) ==> ToTable(s)[key] == ToTable(Blocks(s, maxLength)[j])[key]
  {
    var blocks: seq<Block> := Blocks(s, maxLength);
    NamedBlocks(s, maxLength);
    BlockAt(blocks, s, j);
    forall t | 0 <= t < |s| && s[t].key == key
      ensures Start(blocks, j) <= t < Start(blocks, j + 1)
    {
      InChosenBlock(s, maxLength, j, t);
    }
    SliceLookup(s, Start(blocks, j), Start(blocks, j + 1), key);
  }

  /** With no lower bound the key is below the first key of the stream. */
  lemma BelowTheStream(s: seq<Entry>, maxLength: int, key: Bytes)
    requires Sorted(s) && NoEmptyKey(s)
    requires IsLowerBound(key, IndexFor(Blocks(s, maxLength)), -1)
    ensures s == [] || Less(key, s[0].key)
    ensures key !in ToTable(s)
  {
    var blocks := Blocks(s, maxLength);
    NamedBlocks(s, maxLength);
    if s != [] {
      assert blocks != [];
      BlockAt(blocks, s, 0);
      assert blocks[0][0] == s[0];
      assert IndexFor(blocks)[0].key == s[0].key;
      ToTableKeys(s, key);
      forall i | 0 <= i < |s|
        ensures s[i].key != key
      {
        LessIrreflexive(key);
        if i > 0 { LessTransitive(key, s[0].key, s[i].key); }
      }
    }
  }

  /** A found lower bound means the key is not below the stream. */
  lemma AtOrAboveTheStream(s: seq<Entry>, maxLength: int, key: Bytes, j: nat)
    requires Sorted(s) && NoEmptyKey(s)
    requires IsLowerBound(key, IndexFor(Blocks(s, maxLength)), j)
    ensures s != [] && !Less(key, s[0].key)
  {
    var blocks := Blocks(s, maxLength);
    NamedBlocks(s, maxLength);
    BlockAt(blocks, s, j);
    var start := Start(blocks, j);
    assert blocks[j][0] == s[start];
    if Less(key, s[0].key) {
      if start > 0 { LessTransitive(key, s[0].key, s[start].key); }
      LessAsymmetric(key, s[start].key);
    }
  }

  /** Where the data of block j ends: the start of the next block, or the index offset. */
  function EndOffset(index: seq<IndexEntry>, indexOffset: nat, j: nat): nat
    requires j < |index|
  {
    if j < |index| - 1 then index[j + 1].offset else indexOffset
  }

  /** One file of `Get`: an empty result sends the caller to the next older file. */
  function FileGet(file: Bytes, index: seq<IndexEntry>, indexOffset: nat, key: Bytes, slack: nat): Outcome<Bytes> {
    var j := LowerBound(key, index);
    if j == -1 then Ok([])
    else ReadBlock(file, key, index[j].offset, EndOffset(index, indexOffset, j), slack)
  }

  /** `getValueFromSsTableDataBlock`. */
  function ReadBlock(file: Bytes, key: Bytes, start: nat, end: nat, slack: nat): Outcome<Bytes> {
    if end + slack < start then Panic
    else ScanBlock(ReadAt(file, start, end - start + slack), key)
  }

  function DataOffset(blocks: seq<Block>, j: nat): nat
    requires j <= |blocks|
  {
    |Encode(Flat(blocks[..j]))|
  }

  lemma EncodeParts(blocks: seq<Block>, j: nat)
    requires j < |blocks|
    ensures Encode(Flat(blocks)) ==
      Encode(Flat(blocks[..j])) + Encode(blocks[j]) + Encode(Flat(blocks[j + 1..]))
    ensures Encode(Flat(blocks[..j + 1])) == Encode(Flat(blocks[..j])) + Encode(blocks[j])
  {
    hide *;
    FlatHalves(blocks, j);
    FlatDrop(blocks, j);
    FlatTake(blocks, j);
    EncodeConcat(Flat(blocks[..j]), Flat(blocks[j..]));
    EncodeConcat(blocks[j], Flat(blocks[j + 1..]));
    EncodeConcat(Flat(blocks[..j]), blocks[j]);
  }

  function IndexAndFooter(s: seq<Entry>, maxLength: int): Bytes {
    EncodeIndex(IndexFor(Blocks(s, maxLength))) + U32(|Encode(s)|)
  }

  lemma NamedFile(s: seq<Entry>, maxLength: int)
    requires NoEmptyKey(s)
    ensures FileBytes(s, maxLength) == Encode(s) + IndexAndFooter(s, maxLength)
  {
    NamedBlocks(s, maxLength);
    hide Encode, Flat, CutUp, Label, IndexFor, EncodeIndex, U32;
    assert FileBytes(s, maxLength) == Encode(s) + EncodeIndex(IndexFor(Blocks(s, maxLength))) + U32(|Encode(s)|);
  }

  lemma BlockEnd(s: seq<Entry>, maxLength: int, j: nat)
    requires NoEmptyKey(s) && j < |Blocks(s, maxLength)|
    ensures EndOffset(IndexFor(Blocks(s, maxLength)), |Encode(s)|, j) == DataOffset(Blocks(s, maxLength), j + 1)
  {
    hide Encode, Flat, Blocks, Label;
    NamedBlocks(s, maxLength);
    assert Blocks(s, maxLength)[..|Blocks(s, maxLength)|] == Blocks(s, maxLength);
  }

  /** The bytes from one offset to another, with more of the file after them. */
  ghost predicate LiesAt(file: Bytes, start: nat, end: nat, bytes: Bytes) {
    start + |bytes| == end < |file| && file[start..end] == bytes
  }

  lemma MiddleSlice(file: Bytes, a: Bytes, b: Bytes, c: Bytes, d: Bytes)
    requires file == (a + b + c) + d && d != []
    ensures LiesAt(file, |a|, |a + b|, b)
  {
  }

  /** Where block j lies in the file; at least the footer follows it. */
  lemma BlockBytes(s: seq<Entry>, maxLength: int, j: nat)
    requires NoEmptyKey(s) && j < |Blocks(s, maxLength)|
    ensures LiesAt(FileBytes(s, maxLength), DataOffset(Blocks(s, maxLength), j),
                   DataOffset(Blocks(s, maxLength), j + 1), Encode(Blocks(s, maxLength)[j]))
  {
    hide Encode, Flat, Blocks, FileBytes, EncodeIndex, IndexFor, Label, LiesAt, U32;
    NamedBlocks(s, maxLength);
    NamedFile(s, maxLength);
    assert |IndexAndFooter(s, maxLength)| >= 4;
    var blocks: seq<Block> := Blocks(s, maxLength);
    EncodeParts(blocks, j);
    MiddleSlice(FileBytes(s, maxLength), Encode(Flat(blocks[..j])), Encode(blocks[j]),
                Encode(Flat(blocks[j + 1..])), IndexAndFooter(s, maxLength));
  }

  /** Reading block j of any file that has it in its place. */
  lemma ReadPlacedBlock(file: Bytes, s: seq<Entry>, maxLength: int, key: Bytes, slack: nat, j: nat)
    requires Storable(s) && slack <= 1
    requires IsLowerBound(key, IndexFor(Blocks(s, maxLength)), j)
    requires LiesAt(file, DataOffset(Blocks(s, maxLength), j), DataOffset(Blocks(s, maxLength), j + 1), Encode(Blocks(s, maxLength)[j]))
    ensures var index := IndexFor(Blocks(s, maxLength));
      ReadBlock(file, key, index[j].offset, EndOffset(index, |Encode(s)|, j), slack) ==
      if key in ToTable(s) then Ok(ToTable(s)[key]) else if slack == 0 then Ok([]) else Error
  {
    var blocks: seq<Block> := Blocks(s, maxLength);
    var index := IndexFor(blocks);
    hide Encode, Flat, FileBytes, Blocks, EncodeIndex, U32, Label, ToTable, ScanBlock, Less;
    OneBlockDecides(s, maxLength, key, j);
    BlockEnd(s, maxLength, j);
    NamedBlocks(s, maxLength);
    BlockAt(blocks, s, j);
    EncodeEntryBound(s);
    assert forall i :: 0 <= i < |blocks[j]| ==> blocks[j][i] == s[Start(blocks, j) + i];
    assert Sorted(blocks[j]);
    assert forall i :: 0 <= i < |blocks[j]| ==> EntryFits(blocks[j][i]);
    var start, end := index[j].offset, EndOffset(index, |Encode(s)|, j);
    var tail := file[end..end + slack];
    assert ReadAt(file, start, end - start + slack) == file[start..end] + tail;
    ScanBlockSpec(blocks[j], tail, key);
  }

  lemma ReadBlockSpec(s: seq<Entry>, maxLength: int, key: Bytes, slack: nat, j: nat)
    requires Storable(s) && slack <= 1
    requires IsLowerBound(key, IndexFor(Blocks(s, maxLength)), j)
    ensures var index := IndexFor(Blocks(s, maxLength));
      ReadBlock(FileBytes(s, maxLength), key, index[j].offset, EndOffset(index, |Encode(s)|, j), slack) ==
      if key in ToTable(s) then Ok(ToTable(s)[key]) else if slack == 0 then Ok([]) else Error
  {
    hide Encode, Flat, FileBytes, Blocks, ToTable, ReadBlock, Less, LiesAt;
    BlockBytes(s, maxLength, j);
    ReadPlacedBlock(FileBytes(s, maxLength), s, maxLength, key, slack, j);
  }

  /** The indexed lookup of one file, for any stream and any block length. With the exact
      block length it is the lookup of the plain map. Reading one byte too many, as the code
      does, it fails exactly for the absent keys that are not below the first key. */
  lemma FileGetSpec(s: seq<Entry>, maxLength: int, key: Bytes, slack: nat)
    requires Storable(s) && slack <= 1
    ensures FileGet(FileBytes(s, maxLength), IndexFor(Blocks(s, maxLength)), |Encode(s)|, key, slack) ==
      if key in ToTable(s) then Ok(ToTable(s)[key])
      else if slack == 0 || s == [] || Less(key, s[0].key) then Ok([])
      else Error
  {
    hide Encode, FileBytes, Blocks, IndexFor, ToTable, Less, ReadBlock, Sorted, NoEmptyKey, Search;
    var index := IndexFor(Blocks(s, maxLength));
    LabelsAscend(s, maxLength);
    SearchSpec(key, index, 0, |index| - 1, -1);
    var j := LowerBound(key, index);
    if j == -1 {
      BelowTheStream(s, maxLength, key);
    } else {
      AtOrAboveTheStream(s, maxLength, key, j);
      ReadBlockSpec(s, maxLength, key, slack, j);
    }
  }
}
