/** Reading a whole SSTable file back: the prefix scan, the full read a compaction does, and
    rebuilding the index when the store is reopened (sstable/sstable.go). */
module TableScans {
  import opened ByteStrings
  import opened Tables
  import opened TableFormat
  import opened TableReaders
  import opened TableLookup

  // ----- prefix scan of one file -----

  function ScanRange(file: Bytes, start: nat, end: nat, prefix: Bytes, found: Table): Outcome<Table> {
    if end < start then Panic else ScanPrefix(ReadAt(file, start, end - start), prefix, found)
  }

  /** One file of `PrefixScan`; `found` holds what newer files gave. */
  function FilePrefix(file: Bytes, index: seq<IndexEntry>, indexOffset: nat, prefix: Bytes, found: Table): Outcome<Table> {
    var j := LowerBound(prefix, index);
    if j >= 0 then ScanRange(file, index[j].offset, indexOffset, prefix, found)
    else if |index| == 0 || !HasPrefix(index[0].key, prefix) then Ok(found)
    else ScanRange(file, index[0].offset, indexOffset, prefix, found)
  }

  lemma RestrictPlus(a: Table, b: Table, prefix: Bytes)
    ensures Restrict(a + b, prefix) == Restrict(a, prefix) + Restrict(b, prefix)
  {
  }

  /** Skipping entries without the prefix loses nothing. */
  lemma RestrictSuffix(s: seq<Entry>, n: nat, prefix: Bytes)
    requires n <= |s|
    requires forall i :: 0 <= i < n ==> !HasPrefix(s[i].key, prefix)
    ensures Restrict(ToTable(s), prefix) == Restrict(ToTable(s[n..]), prefix)
  {
    hide ToTable, HasPrefix;
    assert s == s[..n] + s[n..];
    ToTableConcat(s[..n], s[n..]);
    RestrictPlus(ToTable(s[..n]), ToTable(s[n..]), prefix);
    forall k | k in ToTable(s[..n])
      ensures !HasPrefix(k, prefix)
    {
      ToTableKeys(s[..n], k);
    }
    assert Restrict(ToTable(s[..n]), prefix) == map[];
    assert map[] + Restrict(ToTable(s[n..]), prefix) == Restrict(ToTable(s[n..]), prefix);
  }

  /** No entry before the lower-bound block carries the prefix. */
  lemma BeforeStartBlock(s: seq<Entry>, maxLength: int, prefix: Bytes, j: nat, i: nat)
    requires Sorted(s) && NoEmptyKey(s)
    requires IsLowerBound(prefix, IndexFor(Blocks(s, maxLength)), j)
    requires i < Start(Blocks(s, maxLength), j)
    ensures i < |s| && !HasPrefix(s[i].key, prefix)
  {
    hide Blocks, Flat, Label, Less, Encode, HasPrefix;
    var blocks: seq<Block> := Blocks(s, maxLength);
    NamedBlocks(s, maxLength);
    BlockAt(blocks, s, j);
    var first := s[Start(blocks, j)];
    assert blocks[j][0] == first;
    assert Less(s[i].key, first.key) && LessEq(first.key, prefix);
    if HasPrefix(s[i].key, prefix) {
      PrefixIsBelow(s[i].key, prefix);
      LessAsymmetric(s[i].key, first.key);
      if first.key != prefix && s[i].key != prefix {
        LessTransitive(first.key, prefix, s[i].key);
      }
    }
  }

  /** The data from block j on is the encoding of the stream from there on. */
  lemma BlocksFrom(s: seq<Entry>, maxLength: int, j: nat)
    requires NoEmptyKey(s) && j < |Blocks(s, maxLength)|
    ensures Start(Blocks(s, maxLength), j) <= |s| && DataOffset(Blocks(s, maxLength), j) <= |Encode(s)|
    ensures ReadAt(FileBytes(s, maxLength), DataOffset(Blocks(s, maxLength), j),
                   |Encode(s)| - DataOffset(Blocks(s, maxLength), j)) ==
      Encode(s[Start(Blocks(s, maxLength), j)..])
  {
    hide Encode, Flat, Blocks, FileBytes, IndexAndFooter, Label, EncodeIndex, U32, IndexFor;
    NamedBlocks(s, maxLength);
    NamedFile(s, maxLength);
    var blocks: seq<Block> := Blocks(s, maxLength);
    FlatHalves(blocks, j);
    var pre, post := Flat(blocks[..j]), Flat(blocks[j..]);
    assert s == pre + post;
    assert s[|pre|..] == post;
    EncodeConcat(pre, post);
    RangeSlice(FileBytes(s, maxLength), Encode(pre), Encode(post), IndexAndFooter(s, maxLength));
  }

  lemma RangeSlice(file: Bytes, a: Bytes, b: Bytes, c: Bytes)
    requires file == (a + b) + c
    ensures ReadAt(file, |a|, |b|) == b
  {
    assert |a| == |file| ==> b == [];
    assert file[|a|..|a| + |b|] == b;
  }

  /** A first key past the prefix rules the whole file out. */
  lemma SkippedFile(s: seq<Entry>, maxLength: int, prefix: Bytes)
    requires Sorted(s) && NoEmptyKey(s)
    requires IsLowerBound(prefix, IndexFor(Blocks(s, maxLength)), -1)
    requires s != [] ==> !HasPrefix(s[0].key, prefix)
    ensures Restrict(ToTable(s), prefix) == map[]
  {
    BelowTheStream(s, maxLength, prefix);
    hide Less, HasPrefix, ToTable, Blocks;
    forall k | k in ToTable(s)
      ensures !HasPrefix(k, prefix)
    {
      ToTableKeys(s, k);
      var i :| 0 <= i < |s| && s[i].key == k;
      if HasPrefix(k, prefix) {
        PrefixConvex(prefix, s[0].key, k);
      }
    }
  }

  lemma FirstLabel(s: seq<Entry>, maxLength: int)
    requires NoEmptyKey(s)
    ensures s == [] <==> Blocks(s, maxLength) == []
    ensures s != [] ==> Label(Blocks(s, maxLength)[0]) == s[0].key && Start(Blocks(s, maxLength), 0) == 0
  {
    NamedBlocks(s, maxLength);
    var blocks: seq<Block> := Blocks(s, maxLength);
    if blocks != [] {
      BlockAt(blocks, s, 0);
    }
  }

  /** The prefix scan of one file adds exactly its entries with the prefix that no newer file
      already gave. */
  lemma FilePrefixSpec(s: seq<Entry>, maxLength: int, prefix: Bytes, found: Table)
    requires Storable(s)
    ensures FilePrefix(FileBytes(s, maxLength), IndexFor(Blocks(s, maxLength)), |Encode(s)|, prefix, found) ==
      Ok(Restrict(ToTable(s), prefix) + found)
  {
    hide ToTable, Restrict, Less, HasPrefix, Encode, FileBytes, Blocks, Search, ScanPrefix, Label, Flat;
    var index := IndexFor(Blocks(s, maxLength));
    LabelsAscend(s, maxLength);
    SearchSpec(prefix, index, 0, |index| - 1, -1);
    FirstLabel(s, maxLength);
    var j := LowerBound(prefix, index);
    if j == -1 && (index == [] || !HasPrefix(index[0].key, prefix)) {
      SkippedFile(s, maxLength, prefix);
      assert map[] + found == found;
    } else {
      var start: nat := if j == -1 then 0 else j;
      ScanFromBlock(s, maxLength, prefix, found, start);
    }
  }

  lemma RestrictFrom(s: seq<Entry>, maxLength: int, prefix: Bytes, j: nat)
    requires Sorted(s) && NoEmptyKey(s) && j < |Blocks(s, maxLength)|
    requires Start(Blocks(s, maxLength), j) == 0 || IsLowerBound(prefix, IndexFor(Blocks(s, maxLength)), j)
    requires Start(Blocks(s, maxLength), j) <= |s|
    ensures Restrict(ToTable(s), prefix) == Restrict(ToTable(s[Start(Blocks(s, maxLength), j)..]), prefix)
  {
    hide ToTable, Restrict, HasPrefix, Blocks, Start, IsLowerBound, IndexFor;
    var n := Start(Blocks(s, maxLength), j);
    forall i | 0 <= i < n
      ensures !HasPrefix(s[i].key, prefix)
    {
      BeforeStartBlock(s, maxLength, prefix, j, i);
    }
    RestrictSuffix(s, n, prefix);
  }

  lemma ScanFromBlock(s: seq<Entry>, maxLength: int, prefix: Bytes, found: Table, j: nat)
    requires Storable(s) && j < |Blocks(s, maxLength)|
    requires Start(Blocks(s, maxLength), j) == 0 || IsLowerBound(prefix, IndexFor(Blocks(s, maxLength)), j)
    ensures ScanRange(FileBytes(s, maxLength), DataOffset(Blocks(s, maxLength), j), |Encode(s)|, prefix, found) ==
      Ok(Restrict(ToTable(s), prefix) + found)
  {
    hide ToTable, Restrict, Less, Encode, FileBytes, Blocks, ScanPrefix, ReadAt, Start, DataOffset, IndexFor, IsLowerBound;
    EncodeEntryBound(s);
    BlocksFrom(s, maxLength, j);
    RestrictFrom(s, maxLength, prefix, j);
    ScanPrefixSpec(s[Start(Blocks(s, maxLength), j)..], prefix, found);
  }

  // ----- the full read of a compaction -----

  /** `getIndexOffset`. */
  function Footer(file: Bytes): Outcome<nat> {
    if |file| < 4 then Error else Ok(ReadU32(file[|file| - 4..]))
  }

  /** One file of `buildCompactedMap`; here a short read is an error. */
  function FileInto(file: Bytes, found: Table): Outcome<Table> {
    match Footer(file)
    case Ok(offset) => if offset > |file| then Error else ScanAll(file[..offset], found)
    case _ => Error
  }

  lemma FooterOfFile(s: seq<Entry>, maxLength: int)
    requires |Encode(s)| < U32_LIMIT
    ensures Footer(FileBytes(s, maxLength)) == Ok(|Encode(s)|)
  {
    hide Encode, EncodeIndex, U32, ReadU32, IndexFor, CutUp, Flat;
    U32RoundTrip(|Encode(s)|);
    var file := FileBytes(s, maxLength);
    assert file[|file| - 4..] == U32(|Encode(s)|);
  }

  lemma FileIntoSpec(s: seq<Entry>, maxLength: int, found: Table)
    requires Storable(s)
    ensures FileInto(FileBytes(s, maxLength), found) == Ok(found + ToTable(s))
  {
    FooterOfFile(s, maxLength);
    NamedFile(s, maxLength);
    EncodeEntryBound(s);
    hide Encode, FileBytes, IndexAndFooter, ToTable, ScanAll;
    assert FileBytes(s, maxLength)[..|Encode(s)|] == Encode(s);
    ScanAllSpec(s, found);
  }

  // ----- rebuilding the index on open -----

  datatype ParsedIndex = ParsedIndex(entry: IndexEntry, rest: Bytes)

  /** One index entry: running out right after a length or a key is the reported corruption,
      running out inside a field is a slice out of range. */
  function TakeIndexEntry(buf: Bytes): (r: Outcome<ParsedIndex>)
    ensures r.Ok? ==> |r.value.rest| < |buf|
  {
    if |buf| < 4 then Panic
    else
      var n := ReadU32(buf[..4]);
      if |buf| == 4 then Error
      else if 4 + n > |buf| then Panic
      else if 4 + n == |buf| then Error
      else if 8 + n > |buf| then Panic
      else Ok(ParsedIndex(IndexEntry(buf[4..4 + n], ReadU32(buf[4 + n..8 + n])), buf[8 + n..]))
  }

  /** The loop of `buildIndexFromFile`. */
  function ParseIndex(buf: Bytes): Outcome<seq<IndexEntry>>
    decreases |buf|
  {
    if buf == [] then Ok([])
    else match TakeIndexEntry(buf)
      case Ok(p) =>
        (match ParseIndex(p.rest)
         case Ok(rest) => Ok([p.entry] + rest)
         case other => other)
      case Error => Error
      case Panic => Panic
  }

  function OpenFile(file: Bytes): Outcome<Opened> {
    match Footer(file)
    case Ok(offset) =>
      if |file| - 4 < offset then Panic
      else (match ParseIndex(file[offset..|file| - 4])
        case Ok(index) => Ok(Opened(offset, index))
        case Error => Error
        case Panic => Panic)
    case _ => Error
  }

  predicate IndexFits(index: seq<IndexEntry>) {
    forall i :: 0 <= i < |index| ==> |index[i].key| < U32_LIMIT && index[i].offset < U32_LIMIT
  }

  lemma FieldSlices(buf: Bytes, a: Bytes, b: Bytes, c: Bytes, d: Bytes)
    requires buf == (a + b + c) + d && |a| == 4 && |c| == 4
    ensures buf[..4] == a && buf[4..4 + |b|] == b
    ensures buf[4 + |b|..8 + |b|] == c && buf[8 + |b|..] == d
  {
  }

  lemma EncodeIndexCons(index: seq<IndexEntry>)
    requires index != []
    ensures EncodeIndex(index) ==
      (U32(|index[0].key|) + index[0].key + U32(index[0].offset)) + EncodeIndex(index[1..])
  {
  }

  lemma ParseIndexStep(index: seq<IndexEntry>)
    requires index != [] && IndexFits(index)
    ensures TakeIndexEntry(EncodeIndex(index)) == Ok(ParsedIndex(index[0], EncodeIndex(index[1..])))
  {
    hide EncodeIndex, U32, ReadU32;
    var n := |index[0].key|;
    EncodeIndexCons(index);
    U32RoundTrip(n);
    U32RoundTrip(index[0].offset);
    FieldSlices(EncodeIndex(index), U32(n), index[0].key, U32(index[0].offset), EncodeIndex(index[1..]));
  }

  lemma EncodeNoIndex()
    ensures EncodeIndex([]) == []
  {
  }

  lemma {:induction false} ParseIndexSpec(index: seq<IndexEntry>)
    requires IndexFits(index)
    ensures ParseIndex(EncodeIndex(index)) == Ok(index)
  {
    hide EncodeIndex, TakeIndexEntry;
    if index == [] {
      EncodeNoIndex();
    } else {
      ParseIndexStep(index);
      EncodeIndexCons(index);
      ParseIndexSpec(index[1..]);
      assert [index[0]] + index[1..] == index;
    }
  }

  /** Every index entry of a stream that fits the footer fits its own fields. */
  lemma WrittenIndexFits(s: seq<Entry>, maxLength: int)
    requires |Encode(s)| < U32_LIMIT
    ensures IndexFits(IndexFor(Blocks(s, maxLength)))
  {
    var blocks: seq<Block> := Blocks(s, maxLength);
    forall j | 0 <= j < |blocks|
      ensures |Label(blocks[j])| < U32_LIMIT && DataOffset(blocks, j) < U32_LIMIT
    {
      KeptOffset(s, maxLength, j);
      LabelIsKey(blocks[j]);
    }
  }

  lemma {:induction false} LabelIsKey(block: Block)
    ensures |Label(block)| <= |Encode(block)|
  {
    if block != [] {
      LabelIsKey(block[1..]);
    }
  }

  lemma KeptOffset(s: seq<Entry>, maxLength: int, j: nat)
    requires j < |Blocks(s, maxLength)|
    ensures DataOffset(Blocks(s, maxLength), j) + |Encode(Blocks(s, maxLength)[j])| <= |Encode(s)|
  {
    hide Encode, CutUp, Flat, Label;
    var c, blocks := CutUp(s, maxLength), Blocks(s, maxLength);
    CutUpFlat(s, maxLength);
    EncodeParts(blocks, j);
    EncodeConcat(Flat(c.closed), c.open);
    FlatConcat(c.closed, [c.open]);
    FlatSingle(c.open);
  }

  /** Nothing the writer counted in the footer was left out of the file. */
  ghost predicate KeptWhole(s: seq<Entry>, maxLength: int) {
    Flat(Blocks(s, maxLength)) == s
  }

  lemma OpenKept(s: seq<Entry>, maxLength: int)
    requires |Encode(s)| < U32_LIMIT && KeptWhole(s, maxLength)
    ensures OpenFile(FileBytes(s, maxLength)) == Ok(Opened(|Encode(s)|, IndexFor(Blocks(s, maxLength))))
  {
    hide Encode, CutUp, Flat, Label, EncodeIndex, U32, ReadU32, ParseIndex, IndexFor, Footer;
    FooterOfFile(s, maxLength);
    WrittenIndexFits(s, maxLength);
    var index := IndexFor(Blocks(s, maxLength));
    ParseIndexSpec(index);
    var file := FileBytes(s, maxLength);
    assert file[|Encode(s)|..|file| - 4] == EncodeIndex(index);
  }

  /** The one stream the writer mangles: a lone entry with the empty key that does not fill
      a block. Its data never reaches the file, yet the footer counts it. */
  predicate LoneEmptyKey(s: seq<Entry>, maxLength: int) {
    |s| == 1 && s[0].key == [] && |EncodeEntry(s[0])| <= maxLength
  }

  /** Only the first key of a sorted stream can be empty. */
  lemma LaterKeysNamed(s: seq<Entry>, i: nat)
    requires Sorted(s) && 0 < i < |s|
    ensures s[i].key != []
  {
    assert Less(s[0].key, s[i].key);
  }

  lemma EmptyLabel(block: Block)
    requires Sorted(block) && Label(block) == []
    ensures |block| <= 1 && (block != [] ==> block[0].key == [])
  {
    if |block| > 1 {
      LaterKeysNamed(block, 1);
    }
  }

  lemma CutUpLoneEmptyKey(s: seq<Entry>, maxLength: int)
    requires LoneEmptyKey(s, maxLength)
    ensures CutUp(s, maxLength) == Cutting([], s) && Blocks(s, maxLength) == []
  {
    assert s[..0] == [] && [] + [s[0]] == s && s == [s[0]];
    EncodeSingle(s[0]);
    assert Label(s) == Label(s[1..]) == [];
  }

  lemma EmptyKeyIsFirst(s: seq<Entry>, front: seq<Entry>, back: seq<Entry>)
    requires Sorted(s) && s == front + back && back != [] && back[0].key == []
    ensures front == []
  {
    if front != [] {
      LaterKeysNamed(s, |front|);
    }
  }

  /** A dropped open block holds the empty key alone, which is first in a sorted stream. */
  lemma DroppedIsLone(s: seq<Entry>, maxLength: int)
    requires Sorted(s) && CutUp(s, maxLength).open != [] && Label(CutUp(s, maxLength).open) == []
    ensures LoneEmptyKey(s, maxLength)
  {
    hide CutUp, Flat, Encode, Less, EncodeEntry, Label;
    var c := CutUp(s, maxLength);
    CutUpFlat(s, maxLength);
    CutUpSizes(s, maxLength);
    SortedSuffix(s, Flat(c.closed), c.open);
    EmptyLabel(c.open);
    EmptyKeyIsFirst(s, Flat(c.closed), c.open);
    assert s == c.open == [s[0]];
    EncodeSingle(s[0]);
  }

  lemma SortedSuffix(s: seq<Entry>, front: seq<Entry>, back: seq<Entry>)
    requires Sorted(s) && s == front + back
    ensures Sorted(back)
  {
    assert forall i :: 0 <= i < |back| ==> back[i] == s[|front| + i];
  }

  lemma KeptWholeIff(s: seq<Entry>, maxLength: int)
    requires Sorted(s)
    ensures KeptWhole(s, maxLength) <==> !LoneEmptyKey(s, maxLength)
  {
    var c := CutUp(s, maxLength);
    CutUpFlat(s, maxLength);
    FlatConcat(c.closed, [c.open]);
    FlatSingle(c.open);
    if LoneEmptyKey(s, maxLength) {
      CutUpLoneEmptyKey(s, maxLength);
    } else if c.open != [] && Label(c.open) == [] {
      DroppedIsLone(s, maxLength);
    }
  }

  lemma OpenLoneEmptyKey(s: seq<Entry>, maxLength: int)
    requires |Encode(s)| < U32_LIMIT && LoneEmptyKey(s, maxLength)
    ensures OpenFile(FileBytes(s, maxLength)) == Panic
  {
    hide U32, ReadU32, ParseIndex, Footer;
    FooterOfFile(s, maxLength);
    CutUpLoneEmptyKey(s, maxLength);
  }

  /** Reopening rebuilds exactly the offset and index the writer held, except for the one
      stream above, on which it panics. */
  lemma ReopenIff(s: seq<Entry>, maxLength: int)
    requires Sorted(s) && |Encode(s)| < U32_LIMIT
    ensures OpenFile(FileBytes(s, maxLength)) == Ok(Opened(|Encode(s)|, IndexFor(Blocks(s, maxLength))))
      <==> !LoneEmptyKey(s, maxLength)
  {
    hide Encode, CutUp, Flat, OpenFile, FileBytes, IndexFor, KeptWhole, LoneEmptyKey, Blocks;
    KeptWholeIff(s, maxLength);
    if LoneEmptyKey(s, maxLength) {
      OpenLoneEmptyKey(s, maxLength);
    } else {
      OpenKept(s, maxLength);
    }
  }

  lemma NamedIsNotLone(s: seq<Entry>, maxLength: int)
    requires Storable(s)
    ensures OpenFile(FileBytes(s, maxLength)) == Ok(Opened(|Encode(s)|, IndexFor(Blocks(s, maxLength))))
  {
    hide Encode, CutUp, Flat, OpenFile, FileBytes, IndexFor, Blocks;
    ReopenIff(s, maxLength);
  }

  /** A value under the empty key is missed by the point lookup unless it fills a block by
      itself: the block is labelled by the next key, which is above the empty one. */
  lemma EmptyKeyIsMissed(s: seq<Entry>, maxLength: int, indexOffset: nat, slack: nat)
    requires Sorted(s) && (s != [] && s[0].key == [] ==> |EncodeEntry(s[0])| <= maxLength)
    ensures FileGet(FileBytes(s, maxLength), IndexFor(Blocks(s, maxLength)), indexOffset, [], slack) == Ok([])
  {
    hide FileBytes, Less, ReadBlock, EncodeEntry, Blocks, Label, Sorted;
    var index := IndexFor(Blocks(s, maxLength));
    forall i | 0 <= i < |index|
      ensures index[i].key != []
    {
      if Label(Blocks(s, maxLength)[i]) == [] {
        UnlabelledIsLone(s, maxLength, i);
      }
    }
    NothingBelow(index, 0, |index| - 1, -1);
  }

  lemma UnlabelledIsLone(s: seq<Entry>, maxLength: int, i: nat)
    requires Sorted(s) && i < |Blocks(s, maxLength)| && Label(Blocks(s, maxLength)[i]) == []
    ensures s != [] && s[0].key == [] && |EncodeEntry(s[0])| > maxLength
  {
    hide CutUp, Flat, Encode, Less, EncodeEntry, Label, Sorted;
    var c := CutUp(s, maxLength);
    CutUpFlat(s, maxLength);
    CutUpSizes(s, maxLength);
    var b := c.closed[i];
    assert Closed(b, maxLength);
    FlatHalves(c.closed, i);
    FlatDrop(c.closed, i);
    var front, back := Flat(c.closed[..i]), b + (Flat(c.closed[i + 1..]) + c.open);
    assert s == front + back;
    SortedSuffix(s, front, back);
    SortedPrefix(back, |b|);
    assert back[..|b|] == b;
    EmptyLabel(b);
    EmptyKeyIsFirst(s, front, back);
    assert b == [s[0]];
    EncodeSingle(s[0]);
  }

  lemma SortedPrefix(s: seq<Entry>, n: nat)
    requires Sorted(s) && n <= |s|
    ensures Sorted(s[..n])
  {
  }

  lemma {:induction false} NothingBelow(index: seq<IndexEntry>, low: int, high: int, best: int)
    requires 0 <= low <= high + 1 <= |index| && -1 <= best < |index|
    requires forall i :: 0 <= i < |index| ==> index[i].key != []
    ensures Search([], index, low, high, best) == best
    decreases high - low
  {
    if low <= high {
      NothingBelow(index, low, low + (high - low) / 2 - 1, best);
    }
  }
}
