/** `Get` and `PrefixScan` over a list of files when the reader's end of each file may be that
    of another one, as the swap leaves it: exactly what the whole search returns
    (sstable/sstable.go, sstable/compaction.go). */
module StaleReads {
  import opened ByteStrings
  import opened Tables
  import opened TableFormat
  import opened TableReaders
  import opened TableLookup
  import opened TableScans
  import opened StaleOffsets
  import opened Store

  // ----- Get in one file, for any key and any end -----

  /** The key is below the first one of the file, which is then passed over. */
  predicate Below(s: seq<Entry>, key: Bytes) {
    s == [] || Less(key, s[0].key)
  }

  /** The block chosen for the key is not the last one, so the reader's end does not matter. */
  predicate BeforeLastBlock(s: seq<Entry>, maxLength: int, key: Bytes) {
    LastStart(s, maxLength) < |s| ==> Less(key, s[LastStart(s, maxLength)].key)
  }

  /** What the search makes of the bytes behind the data: index block, footer and zeros. */
  function PastTheData(s: seq<Entry>, maxLength: int, n: nat, key: Bytes): Outcome<Bytes>
    requires n >= |Encode(s)|
  {
    ScanBlock(ReadAt(FileBytes(s, maxLength), |Encode(s)|, n - |Encode(s)|), key)
  }

  /** What `Get` gets from one file when the reader takes e for the end of its data: from an
      earlier block what it should, or an error for an absent key if one byte more is read; from
      the last block the value of a key wholly before the end, an allocation out of range if
      the end lies before that block, nothing if it falls between two entries, an error if it
      cuts one, and whatever the bytes behind the data spell if the end lies there. */
  function Answer(s: seq<Entry>, maxLength: int, e: nat, key: Bytes, slack: nat): Outcome<Bytes> {
    var n, start := e + slack, LastStart(s, maxLength);
    if Below(s, key) then Ok([])
    else if BeforeLastBlock(s, maxLength, key) then
      (if key in ToTable(s) then Ok(ToTable(s)[key]) else if slack == 0 then Ok([]) else Error)
    else if start <= |s| && n < |Encode(s[..start])| then Panic
    else if n <= |Encode(s)| then
      (if key in ToTable(s[..Whole(s, n)]) then Ok(ToTable(s[..Whole(s, n)])[key])
       else if OnBoundary(s, n) then Ok([]) else Error)
    else if key in ToTable(s) then Ok(ToTable(s)[key])
    else PastTheData(s, maxLength, n, key)
  }

  lemma {:induction false} ScanBlockOn(s: seq<Entry>, tail: Bytes, key: Bytes)
    requires Sorted(s) && forall i :: 0 <= i < |s| ==> EntryFits(s[i])
    ensures ScanBlock(Encode(s) + tail, key) == if key in ToTable(s) then Ok(ToTable(s)[key]) else ScanBlock(tail, key)
  {
    hide Encode, ScanBlock, ToTable, Less;
    if s == [] {
      EncodeNone();
      NoEntries();
      assert Encode(s) + tail == tail;
    } else {
      ScanBlockStep(s, tail, key);
      ScanBlockOn(s[1..], tail, key);
      assert s == [s[0]] + s[1..];
      ToTableCons(s[0], s[1..]);
      ToTableAt(s, 0);
    }
  }

  /** The last index entry is the first key of the last block. */
  lemma LastLabel(s: seq<Entry>, maxLength: int)
    requires Storable(s) && s != []
    ensures Blocks(s, maxLength) != [] && LastStart(s, maxLength) < |s|
    ensures IndexFor(Blocks(s, maxLength))[|Blocks(s, maxLength)| - 1].key == s[LastStart(s, maxLength)].key
  {
    hide Encode, Flat, Blocks, Label;
    FirstLabel(s, maxLength);
    NamedBlocks(s, maxLength);
    var blocks: seq<Block> := Blocks(s, maxLength);
    BlockAt(blocks, s, |blocks| - 1);
    assert blocks[|blocks| - 1][0] == s[LastStart(s, maxLength)];
  }

  /** Whether the chosen block is the last one is decided by its first key. */
  lemma ChosenIsLast(s: seq<Entry>, maxLength: int, key: Bytes, j: nat)
    requires Storable(s) && s != [] && IsLowerBound(key, IndexFor(Blocks(s, maxLength)), j)
    ensures BeforeLastBlock(s, maxLength, key) <==> j < |Blocks(s, maxLength)| - 1
  {
    hide Encode, Flat, Blocks, Label, Less, Storable;
    LastLabel(s, maxLength);
    var index := IndexFor(Blocks(s, maxLength));
    var last := index[|index| - 1].key;
    if j == |index| - 1 {
      LessIrreflexive(key);
      if Less(key, last) {
        LessAsymmetric(key, last);
      }
    }
  }

  lemma BlockOfKey(s: seq<Entry>, maxLength: int, key: Bytes)
    requires Storable(s)
    ensures var j := LowerBound(key, IndexFor(Blocks(s, maxLength)));
      if Below(s, key) then j == -1 && key !in ToTable(s)
      else j >= 0 && IsLowerBound(key, IndexFor(Blocks(s, maxLength)), j)
  {
    hide Encode, Flat, Blocks, Label, Less, Search, ToTable;
    var index := IndexFor(Blocks(s, maxLength));
    LabelsAscend(s, maxLength);
    SearchSpec(key, index, 0, |index| - 1, -1);
    var j := LowerBound(key, index);
    if j == -1 {
      BelowTheStream(s, maxLength, key);
    } else {
      AtOrAboveTheStream(s, maxLength, key, j);
    }
  }

  /** `FileGet` is this answer. */
  lemma AnyEndGet(s: seq<Entry>, maxLength: int, e: nat, key: Bytes, slack: nat)
    requires Storable(s) && slack <= 1
    ensures FileGet(FileBytes(s, maxLength), IndexFor(Blocks(s, maxLength)), e, key, slack) == Answer(s, maxLength, e, key, slack)
  {
    hide Encode, FileBytes, Blocks, Flat, Label, ToTable, Less, ReadBlock, Search, Sorted, NoEmptyKey, OnBoundary, Whole,
      BeforeLastBlock, Below, PastTheData, IsLowerBound;
    BlockOfKey(s, maxLength, key);
    if !Below(s, key) {
      var j := LowerBound(key, IndexFor(Blocks(s, maxLength)));
      NotBelow(s, key);
      ChosenIsLast(s, maxLength, key, j);
      if j < |Blocks(s, maxLength)| - 1 {
        ReadBlockSpec(s, maxLength, key, slack, j);
      } else {
        LastBlockRead(s, maxLength, e, key, slack);
      }
    }
  }

  lemma NotBelow(s: seq<Entry>, key: Bytes)
    requires !Below(s, key)
    ensures s != []
  {
  }

  /** No entry before the last block has a key that is not below it. */
  lemma KeysOfLastBlock(s: seq<Entry>, maxLength: int, key: Bytes, p: nat)
    requires Storable(s) && s != [] && !BeforeLastBlock(s, maxLength, key) && LastStart(s, maxLength) <= p <= |s|
    ensures key in ToTable(s[..p]) <==> key in ToTable(s[LastStart(s, maxLength)..p])
    ensures key in ToTable(s[..p]) ==> ToTable(s[..p])[key] == ToTable(s[LastStart(s, maxLength)..p])[key]
  {
    hide Encode, Blocks, Flat, Label, Less, ToTable, LastStart;
    var b := LastStart(s, maxLength);
    LastLabel(s, maxLength);
    SliceLookup(s[..p], b, p, key);
    assert s[..p][b..p] == s[b..p];
  }

  lemma LastBlockRead(s: seq<Entry>, maxLength: int, e: nat, key: Bytes, slack: nat)
    requires Storable(s) && s != [] && !Below(s, key) && !BeforeLastBlock(s, maxLength, key)
    ensures Blocks(s, maxLength) != []
    ensures ReadBlock(FileBytes(s, maxLength), key, DataOffset(Blocks(s, maxLength), |Blocks(s, maxLength)| - 1), e, slack) ==
      Answer(s, maxLength, e, key, slack)
  {
    hide Encode, FileBytes, Blocks, Flat, Label, ToTable, Less, ReadAt, ScanBlock, OnBoundary, Whole, Below, BeforeLastBlock, Sorted;
    LastLabel(s, maxLength);
    var j, b, n := |Blocks(s, maxLength)| - 1, LastStart(s, maxLength), e + slack;
    var offset := |Encode(s[..b])|;
    ReadFrom(s, maxLength, j, if n < offset then 0 else n - offset);
    if n >= offset {
      LastBlockScan(s, maxLength, n, key);
    }
  }

  lemma LastBlockScan(s: seq<Entry>, maxLength: int, n: nat, key: Bytes)
    requires Storable(s) && s != [] && !BeforeLastBlock(s, maxLength, key)
    requires LastStart(s, maxLength) <= |s| && n >= |Encode(s[..LastStart(s, maxLength)])|
    ensures ScanBlock(ReadAt(FileBytes(s, maxLength), |Encode(s[..LastStart(s, maxLength)])|, n - |Encode(s[..LastStart(s, maxLength)])|), key) ==
      if n <= |Encode(s)| then
        (if key in ToTable(s[..Whole(s, n)]) then Ok(ToTable(s[..Whole(s, n)])[key]) else if OnBoundary(s, n) then Ok([]) else Error)
      else if key in ToTable(s) then Ok(ToTable(s)[key])
      else PastTheData(s, maxLength, n, key)
  {
    hide Encode, FileBytes, Blocks, Flat, Label, ToTable, Less, ReadAt, ScanBlock, OnBoundary, Whole, BeforeLastBlock;
    LastLabel(s, maxLength);
    var j, b, file := |Blocks(s, maxLength)| - 1, LastStart(s, maxLength), FileBytes(s, maxLength);
    var offset, t := |Encode(s[..b])|, s[b..];
    ReadFrom(s, maxLength, j, n - offset);
    EncodeEntryBound(s);
    if n <= |Encode(s)| {
      WholeShift(s, b, n - offset);
      ScanCutBlock(t, n - offset, key);
      KeysOfLastBlock(s, maxLength, key, Whole(s, n));
      assert t[..Whole(t, n - offset)] == s[b..Whole(s, n)];
    } else {
      ReadAtRest(file, offset, |Encode(t)|, n - offset);
      ScanBlockOn(t, ReadAt(file, |Encode(s)|, n - |Encode(s)|), key);
      KeysOfLastBlock(s, maxLength, key, |s|);
      assert s[..|s|] == s && s[b..|s|] == t;
    }
  }

  // ----- Get over the list -----

  /** File j sends the search on to the next older one. */
  ghost predicate Passes(s: seq<Entry>, maxLength: int, e: nat, key: Bytes, slack: nat) {
    Answer(s, maxLength, e, key, slack) == Ok([])
  }

  /** The reader's end of every file. */
  ghost predicate Ends(ends: seq<nat>, streams: seq<seq<Entry>>) {
    |streams| <= |ends|
  }

  /** The search over the first n files comes to v: an older file gives it and all newer ones
      pass, or, for the empty value, all pass. */
  ghost predicate Finds(streams: seq<seq<Entry>>, ends: seq<nat>, maxLength: int, n: nat, key: Bytes, slack: nat, v: Bytes)
    requires Ends(ends, streams) && n <= |streams|
  {
    if v == [] then forall j :: 0 <= j < n ==> Passes(streams[j], maxLength, ends[j], key, slack)
    else exists i :: 0 <= i < n && FoundAt(streams, ends, maxLength, n, key, slack, v, i)
  }

  ghost predicate FoundAt(streams: seq<seq<Entry>>, ends: seq<nat>, maxLength: int, n: nat, key: Bytes, slack: nat, v: Bytes, i: nat)
    requires Ends(ends, streams) && i < n <= |streams|
  {
    && Answer(streams[i], maxLength, ends[i], key, slack) == Ok(v)
    && forall j :: i < j < n ==> Passes(streams[j], maxLength, ends[j], key, slack)
  }

  /** The search comes to another value than the right one. */
  ghost predicate FindsOther(streams: seq<seq<Entry>>, ends: seq<nat>, maxLength: int, n: nat, key: Bytes, slack: nat, right: Bytes)
    requires Ends(ends, streams) && n <= |streams|
  {
    exists v :: Finds(streams, ends, maxLength, n, key, slack, v) && v != right
  }

  lemma AnyEndBacked(disk: Disk, st: State, streams: seq<seq<Entry>>, maxLength: int, i: nat, key: Bytes, slack: nat)
    requires i < |st.files| && Backed(disk, st, streams, maxLength) && slack <= 1
    ensures FileGet(Contents(disk, st.files[i]), st.indexBlocks[i], st.indexOffsets[i], key, slack) ==
      Answer(streams[i], maxLength, st.indexOffsets[i], key, slack)
  {
    hide Encode, FileBytes, Blocks, IndexFor, FileGet, Answer, Storable;
    assert BackedAt(disk, st, streams, maxLength, i);
    AnyEndGet(streams[i], maxLength, st.indexOffsets[i], key, slack);
  }

  /** Whatever ends the readers have, this is exactly when `Get` returns a value. */
  lemma {:induction false} GetFindsIff(disk: Disk, st: State, streams: seq<seq<Entry>>, maxLength: int, n: nat, key: Bytes, slack: nat, v: Bytes)
    requires Backed(disk, st, streams, maxLength) && n <= |streams| && slack <= 1
    ensures GetUpTo(disk, st, n, key, slack) == Ok(v) <==> Finds(streams, st.indexOffsets, maxLength, n, key, slack, v)
  {
    hide BackedAt, FileGet, Answer, Contents;
    if n > 0 {
      var ends := st.indexOffsets;
      AnyEndBacked(disk, st, streams, maxLength, n - 1, key, slack);
      GetFindsIff(disk, st, streams, maxLength, n - 1, key, slack, v);
      FindsStep(streams, ends, maxLength, n, key, slack, v);
    }
  }

  lemma FindsStep(streams: seq<seq<Entry>>, ends: seq<nat>, maxLength: int, n: nat, key: Bytes, slack: nat, v: Bytes)
    requires Ends(ends, streams) && 0 < n <= |streams|
    ensures Finds(streams, ends, maxLength, n, key, slack, v) <==>
      if Passes(streams[n - 1], maxLength, ends[n - 1], key, slack) then Finds(streams, ends, maxLength, n - 1, key, slack, v)
      else v != [] && Answer(streams[n - 1], maxLength, ends[n - 1], key, slack) == Ok(v)
  {
    hide Answer;
    if v != [] {
      if Answer(streams[n - 1], maxLength, ends[n - 1], key, slack) == Ok(v) {
        assert FoundAt(streams, ends, maxLength, n, key, slack, v, n - 1);
      }
      if Finds(streams, ends, maxLength, n, key, slack, v) {
        var i :| 0 <= i < n && FoundAt(streams, ends, maxLength, n, key, slack, v, i);
        assert i < n - 1 ==> FoundAt(streams, ends, maxLength, n - 1, key, slack, v, i);
      }
      if Passes(streams[n - 1], maxLength, ends[n - 1], key, slack) && Finds(streams, ends, maxLength, n - 1, key, slack, v) {
        var i :| 0 <= i < n - 1 && FoundAt(streams, ends, maxLength, n - 1, key, slack, v, i);
        assert FoundAt(streams, ends, maxLength, n, key, slack, v, i);
      }
    }
  }

  /** How the newest value of a key is lost without an error: a file that holds it with a value
      passes if and only if the key is in the last block, behind the end the reader has, and that
      end falls between two entries of that block. The search then goes on to older values. */
  lemma SilentlyLostIff(s: seq<Entry>, maxLength: int, e: nat, k: nat, slack: nat)
    requires Storable(s) && k < |s| && s[k].value != [] && slack <= 1
    ensures LastStart(s, maxLength) <= |s|
    ensures Passes(s, maxLength, e, s[k].key, slack) <==>
      && LastStart(s, maxLength) <= k && |Encode(s[..LastStart(s, maxLength)])| <= e + slack < |Encode(s[..k + 1])|
      && OnBoundary(s, e + slack)
  {
    hide Encode, FileGet, FileBytes, Blocks, IndexFor, LastStart, OnBoundary, Storable, Answer;
    LastLabelInside(s, maxLength);
    AnyEndGet(s, maxLength, e, s[k].key, slack);
    StaleGet(s, maxLength, e, k, slack);
  }

  lemma LastLabelInside(s: seq<Entry>, maxLength: int)
    requires Storable(s) && s != []
    ensures LastStart(s, maxLength) < |s|
  {
    hide Encode, Blocks, IndexFor, LastStart, Storable;
    LastLabel(s, maxLength);
  }

  // ----- PrefixScan in one file, for any end -----

  /** What one file contributes to a prefix scan up to the end e. */
  function Contributes(s: seq<Entry>, maxLength: int, e: nat, prefix: Bytes): Outcome<Table> {
    match ScanStart(s, maxLength, prefix)
    case None => Ok(map[])
    case Some(j) =>
      if e < DataOffset(Blocks(s, maxLength), j) then Panic
      else if e <= |Encode(s)| then
        (if EndsWell(s, e, prefix) then Ok(Restrict(ToTable(s[..Whole(s, e)]), prefix)) else Error)
      else if SomeStops(s, prefix) then Ok(Restrict(ToTable(s), prefix))
      else match ScanPrefix(ReadAt(FileBytes(s, maxLength), |Encode(s)|, e - |Encode(s)|), prefix, map[])
        case Ok(madeUp) => Ok(madeUp + Restrict(ToTable(s), prefix))
        case other => other
  }

  /** Entries already found never change what a scan does, only win over what it finds. */
  function Under(r: Outcome<Table>, found: Table): Outcome<Table> {
    match r
    case Ok(t) => Ok(t + found)
    case other => other
  }

  lemma FoundWins(t: Table, found: Table, k: Bytes, v: Bytes)
    ensures (if k in t then t else t[k := v]) + found ==
      if k in t + found then t + found else (t + found)[k := v]
  {
  }

  lemma {:induction false} ScanUnder(buf: Bytes, prefix: Bytes, t: Table, found: Table)
    ensures ScanPrefix(buf, prefix, t + found) == Under(ScanPrefix(buf, prefix, t), found)
    decreases |buf|
  {
    hide TakeEntry, HasPrefix, Less, Cut;
    if buf != [] && TakeEntry(buf).Some? {
      var p := TakeEntry(buf).value;
      var k, v := p.entry.key, p.entry.value;
      FoundWins(t, found, k, v);
      if HasPrefix(k, prefix) {
        ScanUnder(p.rest, prefix, if k in t then t else t[k := v], found);
      } else if !Less(prefix, Cut(k, prefix)) {
        ScanUnder(p.rest, prefix, t, found);
      }
    }
  }

  lemma UnderNothing(found: Table)
    ensures map[] + found == found
  {
  }

  /** `FilePrefix` puts this contribution under what newer files gave. */
  lemma AnyEndScan(s: seq<Entry>, maxLength: int, e: nat, prefix: Bytes, found: Table)
    requires Storable(s)
    ensures FilePrefix(FileBytes(s, maxLength), IndexFor(Blocks(s, maxLength)), e, prefix, found) ==
      Under(Contributes(s, maxLength, e, prefix), found)
  {
    hide Encode, FileBytes, Blocks, IndexFor, ToTable, FilePrefix, EndsWell, SomeStops, Whole, Restrict, DataOffset, ScanStart,
      ScanPrefix, ReadAt, Storable;
    UnderNothing(found);
    if e <= |Encode(s)| {
      StaleScan(s, maxLength, e, prefix, found);
    } else if ScanStart(s, maxLength, prefix).None? {
      SkippedAnyEnd(s, maxLength, e, prefix, found);
    } else {
      StartsWithinData(s, maxLength, prefix);
      StaleScanBeyond(s, maxLength, e, prefix, found);
      var own, tail := Restrict(ToTable(s), prefix), ReadAt(FileBytes(s, maxLength), |Encode(s)|, e - |Encode(s)|);
      UnderNothing(own + found);
      ScanUnder(tail, prefix, map[], own + found);
      UnderBoth(ScanPrefix(tail, prefix, map[]), own, found);
    }
  }

  lemma UnderBoth(r: Outcome<Table>, own: Table, found: Table)
    ensures Under(r, own + found) == Under(Under(r, own), found)
  {
    if r.Ok? {
      PlusAssociates(r.value, own, found);
    }
  }

  lemma SkippedAnyEnd(s: seq<Entry>, maxLength: int, e: nat, prefix: Bytes, found: Table)
    requires ScanStart(s, maxLength, prefix).None?
    ensures FilePrefix(FileBytes(s, maxLength), IndexFor(Blocks(s, maxLength)), e, prefix, found) == Ok(found)
  {
    hide Encode, FileBytes, Blocks, Search, HasPrefix;
  }

  lemma StartsWithinData(s: seq<Entry>, maxLength: int, prefix: Bytes)
    requires Storable(s) && ScanStart(s, maxLength, prefix).Some?
    ensures DataOffset(Blocks(s, maxLength), ScanStart(s, maxLength, prefix).value) <= |Encode(s)|
  {
    hide Encode, FileBytes, Blocks, Flat, ReadAt, ScanStart, Sorted;
    ReadFrom(s, maxLength, ScanStart(s, maxLength, prefix).value, 0);
  }

  /** What it shares with the file's own entries it has right. */
  lemma ContributesRight(s: seq<Entry>, maxLength: int, e: nat, prefix: Bytes, k: Bytes)
    requires Storable(s) && Contributes(s, maxLength, e, prefix).Ok?
    requires k in Contributes(s, maxLength, e, prefix).value && k in Restrict(ToTable(s), prefix)
    ensures Contributes(s, maxLength, e, prefix).value[k] == Restrict(ToTable(s), prefix)[k]
  {
    hide Encode, FileBytes, Blocks, ToTable, EndsWell, SomeStops, Whole, DataOffset, ScanStart, ScanPrefix, ReadAt, Less, HasPrefix;
    if e <= |Encode(s)| {
      PartHolds(s, Whole(s, e), k);
    }
  }

  // ----- PrefixScan over the list -----

  /** What each of the first n files contributes and what it should. */
  ghost function Shown(streams: seq<seq<Entry>>, ends: seq<nat>, maxLength: int, prefix: Bytes): (r: seq<Table>)
    requires Ends(ends, streams)
    ensures |r| == |streams|
  {
    seq(|streams|, i requires 0 <= i < |streams| =>
      var r := Contributes(streams[i], maxLength, ends[i], prefix); if r.Ok? then r.value else map[])
  }

  ghost function Due(streams: seq<seq<Entry>>, prefix: Bytes): (r: seq<Table>)
    ensures |r| == |streams|
  {
    seq(|streams|, i requires 0 <= i < |streams| => Restrict(ToTable(streams[i]), prefix))
  }

  ghost predicate AllEnd(streams: seq<seq<Entry>>, ends: seq<nat>, maxLength: int, n: nat, prefix: Bytes)
    requires Ends(ends, streams) && n <= |streams|
  {
    forall i :: 0 <= i < n ==> Contributes(streams[i], maxLength, ends[i], prefix).Ok?
  }

  lemma AnyEndScanBacked(disk: Disk, st: State, streams: seq<seq<Entry>>, maxLength: int, i: nat, prefix: Bytes, found: Table)
    requires i < |st.files| && Backed(disk, st, streams, maxLength)
    ensures FilePrefix(Contents(disk, st.files[i]), st.indexBlocks[i], st.indexOffsets[i], prefix, found) ==
      Under(Contributes(streams[i], maxLength, st.indexOffsets[i], prefix), found)
  {
    hide Encode, FileBytes, Blocks, IndexFor, FilePrefix, Contributes, Storable;
    assert BackedAt(disk, st, streams, maxLength, i);
    AnyEndScan(streams[i], maxLength, st.indexOffsets[i], prefix, found);
  }

  /** Whatever ends the readers have, `PrefixScan` succeeds exactly when the scan of every file
      does, and gives the newest-wins merge of what they contribute. */
  lemma {:induction false} PrefixAnyEnds(disk: Disk, st: State, streams: seq<seq<Entry>>, maxLength: int, n: nat, prefix: Bytes, found: Table)
    requires Backed(disk, st, streams, maxLength) && n <= |streams|
    ensures PrefixUpTo(disk, st, n, prefix, found).Ok? <==> AllEnd(streams, st.indexOffsets, maxLength, n, prefix)
    ensures AllEnd(streams, st.indexOffsets, maxLength, n, prefix) ==>
      PrefixUpTo(disk, st, n, prefix, found) == Ok(Merge(Shown(streams, st.indexOffsets, maxLength, prefix)[..n]) + found)
  {
    hide BackedAt, FilePrefix, Contributes, Contents, Merge;
    var shown := Shown(streams, st.indexOffsets, maxLength, prefix);
    if n > 0 {
      AnyEndScanBacked(disk, st, streams, maxLength, n - 1, prefix, found);
      var r := Contributes(streams[n - 1], maxLength, st.indexOffsets[n - 1], prefix);
      if r.Ok? {
        PrefixAnyEnds(disk, st, streams, maxLength, n - 1, prefix, r.value + found);
        MergeInit(shown, n);
        PlusAssociates(Merge(shown[..n - 1]), r.value, found);
      }
    } else {
      MergeNone(shown[..0]);
      UnderNothing(found);
    }
  }

  // ----- when two lists of layers show the same -----

  /** Layer by layer the two agree on the keys both have. */
  ghost predicate Agree(shown: seq<Table>, due: seq<Table>) {
    && |shown| == |due|
    && forall i, k :: 0 <= i < |shown| && k in shown[i] && k in due[i] ==> shown[i][k] == due[i][k]
  }

  /** A key missing from its layer is covered by a newer layer that should have it, or still
      comes out with the same value. */
  ghost predicate NothingMissed(shown: seq<Table>, due: seq<Table>)
    requires |shown| == |due|
  {
    forall i, k :: 0 <= i < |due| && k in due[i] && k !in shown[i] && k !in Merge(due[i + 1..]) ==>
      k in Merge(shown) && Merge(shown)[k] == due[i][k]
  }

  /** A key a layer should not have is covered by a newer layer, or comes out as it should. */
  ghost predicate NothingMadeUp(shown: seq<Table>, due: seq<Table>)
    requires |shown| == |due|
  {
    forall i, k :: 0 <= i < |shown| && k in shown[i] && k !in due[i] && k !in Merge(shown[i + 1..]) ==>
      k in Merge(due) && Merge(due)[k] == shown[i][k]
  }

  /** The newest layer with a key. */
  lemma {:induction false} Newest(tables: seq<Table>, k: Bytes) returns (i: nat)
    requires k in Merge(tables)
    ensures i < |tables| && k in tables[i] && k !in Merge(tables[i + 1..]) && Merge(tables)[k] == tables[i][k]
  {
    var n := |tables| - 1;
    if k in tables[n] {
      i := n;
      MergeNone(tables[i + 1..]);
    } else {
      i := Newest(tables[..n], k);
      assert tables[i + 1..][..n - i - 1] == tables[..n][i + 1..];
      assert tables[i + 1..][n - i - 1] == tables[n];
    }
  }

  lemma NewestDecides(tables: seq<Table>, i: nat, k: Bytes)
    requires i < |tables| && k in tables[i] && k !in Merge(tables[i + 1..])
    ensures k in Merge(tables) && Merge(tables)[k] == tables[i][k]
  {
    hide Merge;
    assert tables == tables[..i + 1] + tables[i + 1..];
    MergeConcat(tables[..i + 1], tables[i + 1..]);
    MergeInit(tables, i + 1);
  }

  lemma SameMergeIff(shown: seq<Table>, due: seq<Table>)
    requires Agree(shown, due)
    ensures Merge(shown) == Merge(due) <==> NothingMissed(shown, due) && NothingMadeUp(shown, due)
  {
    hide Merge;
    if Merge(shown) == Merge(due) {
      forall i, k | 0 <= i < |due| && k in due[i] && k !in Merge(due[i + 1..])
        ensures k in Merge(due) && Merge(due)[k] == due[i][k]
      {
        NewestDecides(due, i, k);
      }
      forall i, k | 0 <= i < |shown| && k in shown[i] && k !in Merge(shown[i + 1..])
        ensures k in Merge(shown) && Merge(shown)[k] == shown[i][k]
      {
        NewestDecides(shown, i, k);
      }
    }
    if NothingMissed(shown, due) && NothingMadeUp(shown, due) {
      forall k | k in Merge(shown) || k in Merge(due)
        ensures k in Merge(shown) && k in Merge(due) && Merge(shown)[k] == Merge(due)[k]
      {
        SameAt(shown, due, k);
      }
    }
  }

  lemma SameAt(shown: seq<Table>, due: seq<Table>, k: Bytes)
    requires Agree(shown, due) && NothingMissed(shown, due) && NothingMadeUp(shown, due)
    requires k in Merge(shown) || k in Merge(due)
    ensures k in Merge(shown) && k in Merge(due) && Merge(shown)[k] == Merge(due)[k]
  {
    hide Merge;
    if k in Merge(due) {
      var i := Newest(due, k);
      if k in shown[i] {
        if k in Merge(shown[i + 1..]) {
          var j := Newest(shown[i + 1..], k);
          NewerOnly(shown, due, i, j, k);
        } else {
          NewestDecides(shown, i, k);
        }
      }
    } else {
      var i := Newest(shown, k);
      if k in due[i] {
        LayerCounts(due, i, k);
      }
    }
  }

  lemma LayerCounts(tables: seq<Table>, i: nat, k: Bytes)
    requires i < |tables| && k in tables[i]
    ensures k in Merge(tables)
  {
    hide Merge;
    assert tables == tables[..i + 1] + tables[i + 1..];
    MergeConcat(tables[..i + 1], tables[i + 1..]);
    MergeInit(tables, i + 1);
  }

  /** The newest layer to show k is above the newest one due to have it: k is made up there. */
  lemma NewerOnly(shown: seq<Table>, due: seq<Table>, i: nat, j: nat, k: Bytes)
    requires |shown| == |due| && i < |due| && NothingMadeUp(shown, due)
    requires k !in Merge(due[i + 1..]) && k in Merge(due)
    requires j < |shown[i + 1..]| && k in shown[i + 1..][j] && k !in Merge(shown[i + 1..][j + 1..])
    ensures k in Merge(shown) && Merge(shown)[k] == Merge(due)[k]
  {
    hide Merge;
    var p := i + 1 + j;
    assert shown[i + 1..][j + 1..] == shown[p + 1..] && shown[i + 1..][j] == shown[p];
    if k in due[p] {
      assert due[i + 1..][j] == due[p];
      LayerCounts(due[i + 1..], j, k);
    }
    NewestDecides(shown, p, k);
  }

  /** Every scan ends well, and nothing that matters is missed or made up. */
  ghost predicate ScanIsRight(streams: seq<seq<Entry>>, ends: seq<nat>, maxLength: int, mem: Table, prefix: Bytes)
    requires Ends(ends, streams)
  {
    var shown := Shown(streams, ends, maxLength, prefix) + [Restrict(mem, prefix)];
    var due := Due(streams, prefix) + [Restrict(mem, prefix)];
    AllEnd(streams, ends, maxLength, |streams|, prefix) && NothingMissed(shown, due) && NothingMadeUp(shown, due)
  }

  /** Whatever ends the readers have: files and memtable together show what they should, in a
      scan for a prefix, if and only if the scan of every file ends well and nothing that
      matters is missed or made up. */
  lemma ScanAnyEndsIff(disk: Disk, st: State, streams: seq<seq<Entry>>, maxLength: int, mem: Table, prefix: Bytes)
    requires Backed(disk, st, streams, maxLength)
    ensures Under(PrefixUpTo(disk, st, |st.files|, prefix, map[]), Restrict(mem, prefix)) == Ok(Restrict(MergedView(streams) + mem, prefix))
      <==> ScanIsRight(streams, st.indexOffsets, maxLength, mem, prefix)
  {
    hide PrefixUpTo, BackedAt, AllEnd, NothingMissed, NothingMadeUp, Merge, Restrict, MergedView, Contributes, ToTable;
    PrefixAnyEnds(disk, st, streams, maxLength, |streams|, prefix, map[]);
    var shown, due, top := Shown(streams, st.indexOffsets, maxLength, prefix), Due(streams, prefix), Restrict(mem, prefix);
    assert shown[..|streams|] == shown && Merge(shown) + map[] == Merge(shown);
    MergeConcat(shown, [top]);
    MergeConcat(due, [top]);
    MergeSingle(top);
    DueMerge(streams, prefix);
    RestrictPlus(MergedView(streams), mem, prefix);
    ShownAgrees(disk, st, streams, maxLength, prefix, top);
    SameMergeIff(shown + [top], due + [top]);
  }

  lemma {:induction false} DueMerge(streams: seq<seq<Entry>>, prefix: Bytes)
    ensures Merge(Due(streams, prefix)) == Restrict(MergedView(streams), prefix)
  {
    hide ToTable, Restrict, MergedView;
    if streams == [] {
      NothingRestricted(streams, prefix, map[]);
      EmptyView(streams);
      UnderNothing(map[]);
      MergeNone(Due(streams, prefix));
      assert Restrict(map[], prefix) + map[] == map[];
      RestrictNothing(prefix);
    } else {
      var n := |streams| - 1;
      DueMerge(streams[..n], prefix);
      assert Due(streams, prefix)[..n] == Due(streams[..n], prefix);
      MergedViewInit(streams, n + 1);
      assert streams[..n + 1] == streams;
      RestrictPlus(MergedView(streams[..n]), ToTable(streams[n]), prefix);
    }
  }

  lemma RestrictNothing(prefix: Bytes)
    ensures Restrict(map[], prefix) == map[]
  {
  }

  lemma ShownAgrees(disk: Disk, st: State, streams: seq<seq<Entry>>, maxLength: int, prefix: Bytes, top: Table)
    requires Backed(disk, st, streams, maxLength)
    ensures Agree(Shown(streams, st.indexOffsets, maxLength, prefix) + [top], Due(streams, prefix) + [top])
  {
    hide Restrict, Contributes, ToTable, Storable, FileBytes, Blocks, IndexFor;
    var shown, due := Shown(streams, st.indexOffsets, maxLength, prefix), Due(streams, prefix);
    forall i, k | 0 <= i < |streams| && k in shown[i] && k in due[i]
      ensures shown[i][k] == due[i][k]
    {
      assert BackedAt(disk, st, streams, maxLength, i);
      ContributesRight(streams[i], maxLength, st.indexOffsets[i], prefix, k);
    }
  }
}
