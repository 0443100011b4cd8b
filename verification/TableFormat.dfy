/** The bytes of an SSTable file, `[data blocks][index block][footer]`, and the loops that
    write them (sstable/sstable.go). */
module TableFormat {
  import opened ByteStrings
  import opened Tables

  datatype IndexEntry = IndexEntry(key: Bytes, offset: nat)

  type Block = seq<Entry>

  // ----- data entries -----

  /** `[length_of_key][key][length_of_value][value]`. */
  function EncodeEntry(e: Entry): Bytes {
    Framed(e.key) + Framed(e.value)
  }

  function Encode(s: seq<Entry>): Bytes {
    if s == [] then [] else EncodeEntry(s[0]) + Encode(s[1..])
  }

  /** The lengths fit the 32-bit prefixes the format writes. */
  predicate EntryFits(e: Entry) {
    |e.key| < U32_LIMIT && |e.value| < U32_LIMIT
  }

  lemma {:induction false} EncodeConcat(a: seq<Entry>, b: seq<Entry>)
    ensures Encode(a + b) == Encode(a) + Encode(b)
  {
    if a == [] {
      assert a + b == b;
    } else {
      assert (a + b)[1..] == a[1..] + b;
      EncodeConcat(a[1..], b);
    }
  }

  lemma EncodeSingle(e: Entry)
    ensures Encode([e]) == EncodeEntry(e)
  {
    assert Encode([e][1..]) == [];
  }

  lemma EncodeAppend(a: seq<Entry>, e: Entry)
    ensures Encode(a + [e]) == Encode(a) + EncodeEntry(e)
  {
    EncodeConcat(a, [e]);
    EncodeSingle(e);
  }

  lemma {:induction false} EncodeEntryBound(s: seq<Entry>)
    requires |Encode(s)| < U32_LIMIT
    ensures forall i :: 0 <= i < |s| ==> EntryFits(s[i])
  {
    if s != [] {
      EncodeEntryBound(s[1..]);
      assert forall i :: 1 <= i < |s| ==> s[i] == s[1..][i - 1];
    }
  }

  // ----- cutting a stream into blocks -----

  function Flat(blocks: seq<Block>): seq<Entry> {
    if blocks == [] then [] else Flat(blocks[..|blocks| - 1]) + blocks[|blocks| - 1]
  }

  lemma {:induction false} FlatConcat(a: seq<Block>, b: seq<Block>)
    ensures Flat(a + b) == Flat(a) + Flat(b)
  {
    if b == [] {
      assert a + b == a;
    } else {
      assert (a + b)[..|a + b| - 1] == a + b[..|b| - 1];
      FlatConcat(a, b[..|b| - 1]);
    }
  }

  lemma FlatSingle(b: Block)
    ensures Flat([b]) == b
  {
    assert [b][..0] == [];
  }

  datatype Cutting = Cutting(closed: seq<Block>, open: Block) {
    /** The blocks that reach the file: the writer drops the open block when its
        `blockFirstKey` is still the empty string. */
    function Kept(): seq<Block> {
      if Label(open) == [] then closed else closed + [open]
    }
  }

  /** A block is closed by the entry that takes it past the configured length. */
  function CutUp(s: seq<Entry>, maxLength: int): Cutting {
    if s == [] then Cutting([], [])
    else
      var c := CutUp(s[..|s| - 1], maxLength);
      var block := c.open + [s[|s| - 1]];
      if |Encode(block)| > maxLength then Cutting(c.closed + [block], []) else Cutting(c.closed, block)
  }

  /** `blockFirstKey`: the empty string doubles as "not set", so the label of a block is its
      first non-empty key. */
  function Label(block: Block): Bytes {
    if block == [] then []
    else if block[0].key != [] then block[0].key
    else Label(block[1..])
  }

  lemma {:induction false} LabelAppend(block: Block, e: Entry)
    ensures Label(block + [e]) == if Label(block) == [] then e.key else Label(block)
  {
    if block == [] {
      assert block + [e] == [e] && [e][1..] == [];
    } else {
      assert (block + [e])[1..] == block[1..] + [e];
      LabelAppend(block[1..], e);
    }
  }

  lemma CutUpNothing(maxLength: int)
    ensures Flat(CutUp([], maxLength).closed) + CutUp([], maxLength).open == []
  {
  }

  lemma CutUpNext(s: seq<Entry>, maxLength: int)
    requires s != []
    ensures var c, last := CutUp(s[..|s| - 1], maxLength), [s[|s| - 1]];
      CutUp(s, maxLength) == Cutting(c.closed + [c.open + last], []) || CutUp(s, maxLength) == Cutting(c.closed, c.open + last)
  {
    hide Encode;
  }

  /** No entry is lost or moved by the cutting. */
  lemma {:induction false} CutUpFlat(s: seq<Entry>, maxLength: int)
    ensures Flat(CutUp(s, maxLength).closed) + CutUp(s, maxLength).open == s
  {
    hide CutUp, Flat, Encode;
    if s == [] {
      CutUpNothing(maxLength);
    } else {
      var init, last := s[..|s| - 1], [s[|s| - 1]];
      CutUpFlat(init, maxLength);
      CutUpNext(s, maxLength);
      var c := CutUp(init, maxLength);
      FlatConcat(c.closed, [c.open + last]);
      FlatSingle(c.open + last);
      assert s == init + last;
      assert Flat(c.closed) + (c.open + last) == (Flat(c.closed) + c.open) + last;
    }
  }

  /** A closed block is longer than the limit and was within it before its last entry. */
  ghost predicate Closed(b: Block, maxLength: int) {
    b != [] && |Encode(b)| > maxLength && (|b| > 1 ==> |Encode(b[..|b| - 1])| <= maxLength)
  }

  lemma {:induction false} CutUpSizes(s: seq<Entry>, maxLength: int)
    ensures forall b :: b in CutUp(s, maxLength).closed ==> Closed(b, maxLength)
    ensures CutUp(s, maxLength).open != [] ==> |Encode(CutUp(s, maxLength).open)| <= maxLength
  {
    if s != [] {
      CutUpSizes(s[..|s| - 1], maxLength);
      var c := CutUp(s[..|s| - 1], maxLength);
      var block := c.open + [s[|s| - 1]];
      assert block[..|block| - 1] == c.open;
    }
  }

  // ----- index and footer -----

  /** One index entry a block: its label and where it starts. */
  function IndexFor(blocks: seq<Block>): (index: seq<IndexEntry>)
    ensures |index| == |blocks|
  {
    seq(|blocks|, j requires 0 <= j < |blocks| =>
      IndexEntry(Label(blocks[j]), |Encode(Flat(blocks[..j]))|))
  }

  lemma IndexForAppend(blocks: seq<Block>, b: Block)
    ensures IndexFor(blocks + [b]) == IndexFor(blocks) + [IndexEntry(Label(b), |Encode(Flat(blocks))|)]
  {
    assert forall j :: 0 <= j <= |blocks| ==> (blocks + [b])[..j] == blocks[..j];
    assert blocks[..|blocks|] == blocks;
  }

  function EncodeIndexEntry(e: IndexEntry): Bytes {
    Framed(e.key) + U32(e.offset)
  }

  function EncodeIndex(index: seq<IndexEntry>): Bytes {
    if index == [] then [] else EncodeIndexEntry(index[0]) + EncodeIndex(index[1..])
  }

  lemma {:induction false} EncodeIndexAppend(index: seq<IndexEntry>, e: IndexEntry)
    ensures EncodeIndex(index + [e]) == EncodeIndex(index) + EncodeIndexEntry(e)
  {
    if index == [] {
      assert index + [e] == [e];
      assert EncodeIndex([e][1..]) == [];
    } else {
      assert (index + [e])[1..] == index[1..] + [e];
      EncodeIndexAppend(index[1..], e);
    }
  }

  /** The blocks of a stream that reach the file. */
  function Blocks(s: seq<Entry>, maxLength: int): seq<Block> {
    CutUp(s, maxLength).Kept()
  }

  /** Everything `writeToFile` appends to the file it is given. */
  function FileBytes(s: seq<Entry>, maxLength: int): Bytes {
    var kept := Blocks(s, maxLength);
    Encode(Flat(kept)) + EncodeIndex(IndexFor(kept)) + U32(|Encode(s)|)
  }

  // ----- the writer -----

  method WriteDataBlocks(stream: seq<Entry>, maxLength: int)
    returns (written: Bytes, offset: nat, index: seq<IndexEntry>)
    ensures written == Encode(Flat(Blocks(stream, maxLength)))
    ensures index == IndexFor(Blocks(stream, maxLength))
    ensures offset == |Encode(stream)|
  {
    var blockLength, blockStart, firstKey, buffer := 0, 0, [], [];
    written, offset, index := [], 0, [];
    for i := 0 to |stream|
      invariant var c := CutUp(stream[..i], maxLength);
        && written == Encode(Flat(c.closed)) && index == IndexFor(c.closed)
        && buffer == Encode(c.open) && blockLength == |buffer|
        && firstKey == Label(c.open) && blockStart == |written|
      invariant offset == |written| + |buffer|
    {
      ghost var c := CutUp(stream[..i], maxLength);
      var e := stream[i];
      assert stream[..i + 1][..i] == stream[..i];
      if firstKey == [] {
        firstKey := e.key;
      }
      LabelAppend(c.open, e);
      EncodeAppend(c.open, e);
      var entry := EncodeEntry(e);
      offset := offset + |entry|;
      blockLength := blockLength + |entry|;
      buffer := buffer + entry;
      if blockLength > maxLength {
        index := index + [IndexEntry(firstKey, blockStart)];
        IndexForAppend(c.closed, c.open + [e]);
        FlatConcat(c.closed, [c.open + [e]]);
        FlatSingle(c.open + [e]);
        EncodeConcat(Flat(c.closed), c.open + [e]);
        written := written + buffer;
        blockStart := offset;
        firstKey, blockLength, buffer := [], 0, [];
      }
    }
    assert stream[..|stream|] == stream;
    ghost var c := CutUp(stream, maxLength);
    CutUpFlat(stream, maxLength);
    EncodeConcat(Flat(c.closed), c.open);
    if firstKey != [] {
      index := index + [IndexEntry(firstKey, blockStart)];
      IndexForAppend(c.closed, c.open);
      FlatConcat(c.closed, [c.open]);
      FlatSingle(c.open);
      written := written + buffer;
    }
  }

  method WriteIndexBlock(index: seq<IndexEntry>) returns (written: Bytes)
    ensures written == EncodeIndex(index)
  {
    written := [];
    for i := 0 to |index|
      invariant written == EncodeIndex(index[..i])
    {
      assert index[..i + 1] == index[..i] + [index[i]];
      EncodeIndexAppend(index[..i], index[i]);
      written := written + (U32(|index[i].key|) + index[i].key + U32(index[i].offset));
    }
    assert index[..|index|] == index;
  }

  method WriteToFile(stream: seq<Entry>, maxLength: int)
    returns (written: Bytes, indexOffset: nat, index: seq<IndexEntry>)
    ensures written == FileBytes(stream, maxLength)
    ensures indexOffset == |Encode(stream)|
    ensures index == IndexFor(Blocks(stream, maxLength))
  {
    var data, indexBlock;
    data, indexOffset, index := WriteDataBlocks(stream, maxLength);
    indexBlock := WriteIndexBlock(index);
    written := data + indexBlock + U32(indexOffset);
  }
}
