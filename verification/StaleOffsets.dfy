/** Reading a table file up to a wrong end of its data, as the readers do with the offsets a
    swap leaves behind: exactly what is still found, what is lost, and what fails
    (sstable/compaction.go, sstable/sstable.go). */
module StaleOffsets {
  import opened ByteStrings
  import opened Tables
  import opened TableFormat
  import opened TableReaders
  import opened TableLookup
  import opened TableScans

  // ----- data cut off anywhere -----

  /** How many entries lie wholly within the first n bytes of the data. */
  function Whole(s: seq<Entry>, n: nat): (p: nat)
    ensures p <= |s|
  {
    if s == [] || n < |EncodeEntry(s[0])| then 0 else 1 + Whole(s[1..], n - |EncodeEntry(s[0])|)
  }

  /** The cut falls between two entries. */
  predicate OnBoundary(s: seq<Entry>, n: nat) {
    |Encode(s[..Whole(s, n)])| == n
  }

  lemma EncodeCons(s: seq<Entry>)
    requires s != []
    ensures Encode(s) == EncodeEntry(s[0]) + Encode(s[1..])
  {
  }

  lemma {:induction false} WholeIff(s: seq<Entry>, n: nat, i: nat)
    requires i < |s|
    ensures i < Whole(s, n) <==> |Encode(s[..i + 1])| <= n
  {
    hide EncodeEntry;
    var head := |EncodeEntry(s[0])|;
    assert s[..i + 1][0] == s[0] && s[..i + 1][1..] == s[1..][..i];
    EncodeCons(s[..i + 1]);
    if n >= head {
      if i > 0 {
        WholeIff(s[1..], n - head, i - 1);
      } else {
        assert Encode([]) == [];
      }
    }
  }

  lemma WholeStep(s: seq<Entry>, n: nat)
    requires s != [] && n >= |EncodeEntry(s[0])|
    ensures Whole(s, n) == 1 + Whole(s[1..], n - |EncodeEntry(s[0])|)
    ensures s[..Whole(s, n)] == [s[0]] + s[1..][..Whole(s, n) - 1]
    ensures OnBoundary(s, n) <==> OnBoundary(s[1..], n - |EncodeEntry(s[0])|)
  {
    hide EncodeEntry;
    var p := Whole(s, n);
    assert s[..p][0] == s[0] && s[..p][1..] == s[1..][..p - 1];
    EncodeCons(s[..p]);
  }

  lemma WholeNone(s: seq<Entry>, n: nat)
    requires s != [] && n < |EncodeEntry(s[0])|
    ensures Whole(s, n) == 0 && (OnBoundary(s, n) <==> n == 0)
  {
    assert s[..0] == [];
  }

  lemma TakePart(v: Bytes, rest: Bytes, n: nat)
    requires |v| < U32_LIMIT && n <= |Framed(v) + rest|
    ensures n < |Framed(v)| ==> Take((Framed(v) + rest)[..n]).None?
    ensures n >= |Framed(v)| ==> Take((Framed(v) + rest)[..n]) == Some(Taken(v, rest[..n - |Framed(v)|]))
  {
    hide U32, ReadU32;
    var buf := (Framed(v) + rest)[..n];
    U32RoundTrip(|v|);
    if n >= |Framed(v)| {
      TakeFramed(v, rest[..n - |Framed(v)|]);
      assert buf == Framed(v) + rest[..n - |Framed(v)|];
    } else if n >= 4 {
      assert buf[..4] == U32(|v|);
    }
  }

  /** An entry cut short cannot be taken off the buffer. */
  lemma TakeCut(s: seq<Entry>, n: nat)
    requires s != [] && EntryFits(s[0]) && n <= |Encode(s)|
    ensures n < |EncodeEntry(s[0])| ==> TakeEntry(Encode(s)[..n]).None?
    ensures n >= |EncodeEntry(s[0])| ==>
      TakeEntry(Encode(s)[..n]) == Some(Parsed(s[0], Encode(s[1..])[..n - |EncodeEntry(s[0])|]))
  {
    hide Take, Encode, Framed;
    var k, v, rest := s[0].key, s[0].value, Encode(s[1..]);
    EncodeCons(s);
    assert Encode(s) == Framed(k) + (Framed(v) + rest);
    TakePart(k, Framed(v) + rest, n);
    if n >= |Framed(k)| {
      TakePart(v, rest, n - |Framed(k)|);
    }
  }

  // ----- the scans of such data -----

  /** The point scan finds a key among the whole entries; else it ends cleanly on a boundary
      and fails elsewhere. */
  lemma {:induction false} ScanCutBlock(s: seq<Entry>, n: nat, key: Bytes)
    requires Sorted(s) && n <= |Encode(s)| && forall i :: 0 <= i < |s| ==> EntryFits(s[i])
    ensures ScanBlock(Encode(s)[..n], key) ==
      if key in ToTable(s[..Whole(s, n)]) then Ok(ToTable(s[..Whole(s, n)])[key])
      else if OnBoundary(s, n) then Ok([]) else Error
  {
    hide TakeEntry, Encode, ToTable, OnBoundary, Whole, EncodeEntry, Less;
    if s == [] {
      NothingCut(n);
    } else if n < |EncodeEntry(s[0])| {
      WholeNone(s, n);
      TakeCut(s, n);
      assert s[..0] == [];
      NoEntries();
    } else {
      var head := |EncodeEntry(s[0])|;
      TakeCut(s, n);
      WholeStep(s, n);
      EncodeCons(s);
      ScanCutBlock(s[1..], n - head, key);
      var p := Whole(s, n);
      ToTableCons(s[0], s[1..][..p - 1]);
      ToTableAt(s[..p], 0);
      EntryIsSome(s[0]);
    }
  }

  lemma NothingCut(n: nat)
    requires n <= |Encode([])|
    ensures Whole([], n) == 0 && OnBoundary([], n) && Encode([])[..n] == [] && ToTable([][..0]) == map[]
  {
    var none: seq<Entry> := [];
    assert none[..0] == none;
  }

  lemma EntryIsSome(e: Entry)
    ensures |EncodeEntry(e)| >= 8
  {
  }

  /** An entry wholly past the prefix, at which a prefix scan stops. */
  predicate Stops(e: Entry, prefix: Bytes) {
    !HasPrefix(e.key, prefix) && Less(prefix, Cut(e.key, prefix))
  }

  predicate SomeStops(s: seq<Entry>, prefix: Bytes) {
    exists i :: 0 <= i < |s| && Stops(s[i], prefix)
  }

  /** The prefix scan collects the whole entries with the prefix; it ends well if it stops
      before the cut or the cut falls on a boundary. */
  lemma {:induction false} ScanCutPrefix(s: seq<Entry>, n: nat, prefix: Bytes, found: Table)
    requires Sorted(s) && n <= |Encode(s)| && forall i :: 0 <= i < |s| ==> EntryFits(s[i])
    ensures ScanPrefix(Encode(s)[..n], prefix, found) ==
      if SomeStops(s[..Whole(s, n)], prefix) || OnBoundary(s, n) then
        Ok(Restrict(ToTable(s[..Whole(s, n)]), prefix) + found)
      else Error
  {
    hide TakeEntry, Encode, ToTable, OnBoundary, Whole, EncodeEntry, Less, Restrict, HasPrefix, Cut;
    if s == [] {
      NothingCut(n);
      NothingToRestrict(prefix, found);
    } else if n < |EncodeEntry(s[0])| {
      WholeNone(s, n);
      TakeCut(s, n);
      assert s[..0] == [];
      NoEntries();
      NothingToRestrict(prefix, found);
    } else {
      CutPrefixStep(s, n, prefix, found);
      var k, v, rest, left := s[0].key, s[0].value, s[1..], n - |EncodeEntry(s[0])|;
      EncodeCons(s);
      WholeStep(s, n);
      var inner := rest[..Whole(rest, left)];
      assert s[..Whole(s, n)] == [s[0]] + inner;
      StopsCons(s[0], inner, prefix);
      ToTableCons(s[0], inner);
      RestrictCons(k, v, ToTable(inner), prefix);
      FirstNotInRest([s[0]] + inner);
      assert ([s[0]] + inner)[1..] == inner;
      if HasPrefix(k, prefix) {
        ScanCutPrefix(rest, left, prefix, if k in found then found else found[k := v]);
        NotInRestricted(ToTable(inner), k, prefix);
        KeepNewer(k, v, Restrict(ToTable(inner), prefix), found);
      } else if Less(prefix, Cut(k, prefix)) {
        RestrictPast([s[0]] + inner, prefix);
        NothingToRestrict(prefix, found);
      } else {
        ScanCutPrefix(rest, left, prefix, found);
      }
    }
  }

  lemma NotInRestricted(t: Table, k: Bytes, prefix: Bytes)
    requires k !in t
    ensures k !in Restrict(t, prefix)
  {
  }

  lemma NothingToRestrict(prefix: Bytes, found: Table)
    ensures Restrict(map[], prefix) == map[] && map[] + found == found
  {
  }

  lemma StopsCons(e: Entry, s: seq<Entry>, prefix: Bytes)
    ensures SomeStops([e] + s, prefix) <==> Stops(e, prefix) || SomeStops(s, prefix)
  {
    hide Stops;
    if Stops(e, prefix) {
      assert ([e] + s)[0] == e;
    }
    if SomeStops(s, prefix) {
      var i :| 0 <= i < |s| && Stops(s[i], prefix);
      assert ([e] + s)[i + 1] == s[i];
    }
  }

  lemma CutPrefixStep(s: seq<Entry>, n: nat, prefix: Bytes, found: Table)
    requires s != [] && EntryFits(s[0]) && |EncodeEntry(s[0])| <= n <= |Encode(s)|
    ensures var rest := Encode(s[1..])[..n - |EncodeEntry(s[0])|];
      ScanPrefix(Encode(s)[..n], prefix, found) ==
      if HasPrefix(s[0].key, prefix) then
        ScanPrefix(rest, prefix, if s[0].key in found then found else found[s[0].key := s[0].value])
      else if Stops(s[0], prefix) then Ok(found)
      else ScanPrefix(rest, prefix, found)
  {
    hide TakeEntry, Encode, EncodeEntry, Less, HasPrefix, Cut;
    TakeCut(s, n);
    EntryIsSome(s[0]);
    EncodeCons(s);
  }

  // ----- where the scans start -----

  lemma {:induction false} WholeShift(s: seq<Entry>, b: nat, n: nat)
    requires b <= |s|
    ensures Whole(s, |Encode(s[..b])| + n) == b + Whole(s[b..], n)
    ensures OnBoundary(s, |Encode(s[..b])| + n) <==> OnBoundary(s[b..], n)
    decreases b
  {
    hide EncodeEntry, OnBoundary, Whole, Encode;
    if b == 0 {
      NothingCut(0);
      assert s[b..] == s && s[..b] == [];
    } else {
      EncodeCons(s[..b]);
      assert s[..b][0] == s[0] && s[..b][1..] == s[1..][..b - 1];
      assert s[1..][b - 1..] == s[b..];
      WholeStep(s, |Encode(s[..b])| + n);
      WholeShift(s[1..], b - 1, n);
    }
  }

  lemma ReadAtPart(file: Bytes, start: nat, m: nat, n: nat)
    requires m <= n
    ensures ReadAt(file, start, n)[..m] == ReadAt(file, start, m)
  {
  }

  /** Reading n bytes from block j on: a part of the encoded rest of the stream, or all of it
      and more. */
  lemma ReadFrom(s: seq<Entry>, maxLength: int, j: nat, n: nat)
    requires NoEmptyKey(s) && j < |Blocks(s, maxLength)|
    ensures Start(Blocks(s, maxLength), j) <= |s|
    ensures DataOffset(Blocks(s, maxLength), j) == |Encode(s[..Start(Blocks(s, maxLength), j)])|
    ensures var data := Encode(s[Start(Blocks(s, maxLength), j)..]);
      var buf := ReadAt(FileBytes(s, maxLength), DataOffset(Blocks(s, maxLength), j), n);
      && DataOffset(Blocks(s, maxLength), j) + |data| == |Encode(s)|
      && (n <= |data| ==> buf == data[..n]) && (n >= |data| ==> buf == data + buf[|data|..])
  {
    hide Encode, Flat, Blocks, FileBytes, Label, ReadAt;
    BlocksFrom(s, maxLength, j);
    var start, file := Start(Blocks(s, maxLength), j), FileBytes(s, maxLength);
    var offset := DataOffset(Blocks(s, maxLength), j);
    FlatOfBlocks(s, maxLength, j);
    assert s == s[..start] + s[start..];
    EncodeConcat(s[..start], s[start..]);
    var data := Encode(s[start..]);
    if n <= |data| {
      ReadAtPart(file, offset, n, |data|);
    } else {
      ReadAtPart(file, offset, |data|, n);
      var buf := ReadAt(file, offset, n);
      assert buf == buf[..|data|] + buf[|data|..];
    }
  }

  lemma FlatOfBlocks(s: seq<Entry>, maxLength: int, j: nat)
    requires NoEmptyKey(s) && j < |Blocks(s, maxLength)|
    ensures Start(Blocks(s, maxLength), j) <= |s|
    ensures Flat(Blocks(s, maxLength)[..j]) == s[..Start(Blocks(s, maxLength), j)]
  {
    hide Encode, Flat, Blocks, Label;
    NamedBlocks(s, maxLength);
    FlatHalves(Blocks(s, maxLength), j);
  }

  // ----- Get up to a wrong end -----

  lemma {:induction false} ScanFinds(s: seq<Entry>, tail: Bytes, i: nat)
    requires Sorted(s) && i < |s| && forall k :: 0 <= k < |s| ==> EntryFits(s[k])
    ensures ScanBlock(Encode(s) + tail, s[i].key) == Ok(s[i].value)
  {
    hide Encode, ScanBlock, Less;
    ScanBlockStep(s, tail, s[i].key);
    if i > 0 {
      LessIrreflexive(s[i].key);
      ScanFinds(s[1..], tail, i - 1);
    }
  }

  /** Where the last block of a file starts. */
  function LastStart(s: seq<Entry>, maxLength: int): nat {
    var blocks := Blocks(s, maxLength);
    if blocks == [] then 0 else Start(blocks, |blocks| - 1)
  }

  lemma KeyHasBlock(s: seq<Entry>, maxLength: int, i: nat)
    requires Storable(s) && i < |s|
    ensures var j := LowerBound(s[i].key, IndexFor(Blocks(s, maxLength)));
      && j >= 0 && IsLowerBound(s[i].key, IndexFor(Blocks(s, maxLength)), j)
      && Start(Blocks(s, maxLength), j) <= i < Start(Blocks(s, maxLength), j + 1)
  {
    hide Less, Blocks, Flat, Search, Label, Encode;
    var index := IndexFor(Blocks(s, maxLength));
    LabelsAscend(s, maxLength);
    SearchSpec(s[i].key, index, 0, |index| - 1, -1);
    if LowerBound(s[i].key, index) == -1 {
      BelowTheStream(s, maxLength, s[i].key);
      ToTableAt(s, i);
    } else {
      InChosenBlock(s, maxLength, LowerBound(s[i].key, index), i);
    }
  }

  /** What `Get` gets from one file for a key it holds, wherever the reader thinks the data
      ends: the value, if the key is not in the last block or lies wholly before that end (or
      the one byte more the code reads); an allocation out of range, if the end lies before the
      last block; nothing, if it falls on a boundary; and an error otherwise. */
  lemma StaleGet(s: seq<Entry>, maxLength: int, e: nat, i: nat, slack: nat)
    requires Storable(s) && i < |s| && slack <= 1
    ensures FileGet(FileBytes(s, maxLength), IndexFor(Blocks(s, maxLength)), e, s[i].key, slack) ==
      if i < LastStart(s, maxLength) || |Encode(s[..i + 1])| <= e + slack then Ok(s[i].value)
      else if e + slack < |Encode(s[..LastStart(s, maxLength)])| then Panic
      else if OnBoundary(s, e + slack) then Ok([])
      else Error
  {
    hide Encode, FileBytes, Blocks, Flat, Label, ToTable, Less, ReadBlock, Search, Sorted, NoEmptyKey, OnBoundary;
    var blocks: seq<Block> := Blocks(s, maxLength);
    KeyHasBlock(s, maxLength, i);
    var j := LowerBound(s[i].key, IndexFor(blocks));
    if j < |blocks| - 1 {
      StartMonotone(blocks, j + 1, |blocks| - 1);
      ToTableAt(s, i);
      ReadBlockSpec(s, maxLength, s[i].key, slack, j);
    } else {
      LastBlockGet(s, maxLength, e, i, slack);
    }
  }

  lemma LastBlockGet(s: seq<Entry>, maxLength: int, e: nat, i: nat, slack: nat)
    requires Storable(s) && Blocks(s, maxLength) != [] && LastStart(s, maxLength) <= i < |s|
    ensures LastStart(s, maxLength) <= |s|
    ensures ReadBlock(FileBytes(s, maxLength), s[i].key, DataOffset(Blocks(s, maxLength), |Blocks(s, maxLength)| - 1), e, slack) ==
      if |Encode(s[..i + 1])| <= e + slack then Ok(s[i].value)
      else if e + slack < |Encode(s[..LastStart(s, maxLength)])| then Panic
      else if OnBoundary(s, e + slack) then Ok([])
      else Error
  {
    hide Encode, FileBytes, Blocks, Flat, Label, ToTable, Less, ReadAt, ScanBlock, OnBoundary, Whole;
    var j, b := |Blocks(s, maxLength)| - 1, LastStart(s, maxLength);
    var n := e + slack - |Encode(s[..b])|;
    ReadFrom(s, maxLength, j, if n < 0 then 0 else n);
    LongerPrefix(s, b, i + 1);
    EncodeEntryBound(s);
    var t := s[b..];
    if n >= 0 {
      WholeShift(s, b, n);
      WholeIff(s, e + slack, i);
      if n <= |Encode(t)| {
        ScanCutBlock(t, n, s[i].key);
        PartTable(t, Whole(t, n), i - b);
      } else {
        LongerPrefix(s, i + 1, |s|);
        assert s[..|s|] == s;
        var buf := ReadAt(FileBytes(s, maxLength), |Encode(s[..b])|, n);
        ScanFinds(t, buf[|Encode(t)|..], i - b);
      }
    }
  }

  lemma LongerPrefix(s: seq<Entry>, a: nat, b: nat)
    requires a <= b <= |s|
    ensures |Encode(s[..a])| <= |Encode(s[..b])|
  {
    hide Encode;
    assert s[..b] == s[..a] + s[a..b];
    EncodeConcat(s[..a], s[a..b]);
  }

  lemma PartTable(t: seq<Entry>, p: nat, i: nat)
    requires Sorted(t) && p <= |t| && i < |t|
    ensures t[i].key in ToTable(t[..p]) <==> i < p
    ensures i < p ==> ToTable(t[..p])[t[i].key] == t[i].value
  {
    hide ToTable, Less;
    ToTableKeys(t[..p], t[i].key);
    LessIrreflexive(t[i].key);
    if i < p {
      ToTableAt(t[..p], i);
    }
  }

  /** A key with a value is found through a wrong end if and only if it lies outside the last
      block or wholly before that end. */
  lemma StaleGetIff(s: seq<Entry>, maxLength: int, e: nat, i: nat, slack: nat)
    requires Storable(s) && i < |s| && slack <= 1 && s[i].value != []
    ensures FileGet(FileBytes(s, maxLength), IndexFor(Blocks(s, maxLength)), e, s[i].key, slack) == Ok(s[i].value)
      <==> i < LastStart(s, maxLength) || |Encode(s[..i + 1])| <= e + slack
  {
    hide Encode, FileGet, FileBytes, Blocks, IndexFor, LastStart, OnBoundary, Storable;
    StaleGet(s, maxLength, e, i, slack);
  }

  // ----- PrefixScan up to a wrong end -----

  /** The block a prefix scan of a file starts at; none when the file is skipped. */
  function ScanStart(s: seq<Entry>, maxLength: int, prefix: Bytes): (start: Option<nat>)
    ensures start.Some? ==> start.value < |Blocks(s, maxLength)|
  {
    var index := IndexFor(Blocks(s, maxLength));
    var j := LowerBound(prefix, index);
    if j >= 0 then Some(j) else if |index| == 0 || !HasPrefix(index[0].key, prefix) then None else Some(0)
  }

  /** The data up to e lets the scan end without an error. */
  predicate EndsWell(s: seq<Entry>, e: nat, prefix: Bytes) {
    OnBoundary(s, e) || SomeStops(s[..Whole(s, e)], prefix)
  }

  lemma {:induction false} CutNotAbove(k: Bytes, prefix: Bytes)
    requires Less(k, prefix)
    ensures !Less(prefix, Cut(k, prefix))
  {
    if k != [] && k[0] == prefix[0] {
      CutNotAbove(k[1..], prefix[1..]);
      assert Cut(k, prefix)[1..] == Cut(k[1..], prefix[1..]);
    }
  }

  /** No scan would stop before its start block. */
  lemma NoStopBefore(s: seq<Entry>, maxLength: int, prefix: Bytes, j: nat, i: nat)
    requires Sorted(s) && NoEmptyKey(s)
    requires IsLowerBound(prefix, IndexFor(Blocks(s, maxLength)), j) && i < Start(Blocks(s, maxLength), j)
    ensures i < |s| && !Stops(s[i], prefix)
  {
    hide Blocks, Flat, Label, Less, Encode, HasPrefix, Cut;
    var blocks: seq<Block> := Blocks(s, maxLength);
    NamedBlocks(s, maxLength);
    BlockAt(blocks, s, j);
    var first := s[Start(blocks, j)].key;
    assert blocks[j][0] == s[Start(blocks, j)];
    if first != prefix {
      LessTransitive(s[i].key, first, prefix);
    }
    CutNotAbove(s[i].key, prefix);
  }

  lemma StopsLater(s: seq<Entry>, maxLength: int, prefix: Bytes, j: nat, p: nat)
    requires Sorted(s) && NoEmptyKey(s) && j < |Blocks(s, maxLength)|
    requires Start(Blocks(s, maxLength), j) == 0 || IsLowerBound(prefix, IndexFor(Blocks(s, maxLength)), j)
    requires Start(Blocks(s, maxLength), j) <= p <= |s|
    ensures SomeStops(s[..p], prefix) <==> SomeStops(s[Start(Blocks(s, maxLength), j)..p], prefix)
    ensures Restrict(ToTable(s[..p]), prefix) == Restrict(ToTable(s[Start(Blocks(s, maxLength), j)..p]), prefix)
  {
    hide Blocks, Flat, Label, Less, Encode, Stops, IsLowerBound, Start, IndexFor, ToTable, Restrict, HasPrefix;
    var b := Start(Blocks(s, maxLength), j);
    forall i | 0 <= i < b
      ensures !Stops(s[i], prefix) && !HasPrefix(s[i].key, prefix)
    {
      NoStopBefore(s, maxLength, prefix, j, i);
      BeforeStartBlock(s, maxLength, prefix, j, i);
    }
    var inner := s[b..p];
    if SomeStops(s[..p], prefix) {
      var i :| 0 <= i < p && Stops(s[..p][i], prefix);
      assert s[i] == inner[i - b];
    }
    if SomeStops(inner, prefix) {
      var i :| 0 <= i < |inner| && Stops(inner[i], prefix);
      assert s[..p][b + i] == inner[i];
    }
    RestrictSuffix(s[..p], b, prefix);
    assert s[..p][b..] == inner;
  }

  lemma StartFacts(s: seq<Entry>, maxLength: int, prefix: Bytes)
    requires Storable(s)
    ensures var start := ScanStart(s, maxLength, prefix);
      start.Some? ==> (Start(Blocks(s, maxLength), start.value) == 0 ||
        IsLowerBound(prefix, IndexFor(Blocks(s, maxLength)), start.value))
  {
    hide Less, Blocks, Flat, Search, Label, Encode, HasPrefix;
    var index := IndexFor(Blocks(s, maxLength));
    LabelsAscend(s, maxLength);
    SearchSpec(prefix, index, 0, |index| - 1, -1);
    FirstLabel(s, maxLength);
  }

  /** What the prefix scan of one file gives when the reader takes e, at or before the end of
      the data, for that end: a skipped file is skipped; an end before the start block is an
      allocation out of range; otherwise exactly the entries with the prefix that lie wholly
      before e, with no error if the scan stops before e or e falls on a boundary, so that
      the others are lost silently. */
  lemma StaleScan(s: seq<Entry>, maxLength: int, e: nat, prefix: Bytes, found: Table)
    requires Storable(s) && e <= |Encode(s)|
    ensures FilePrefix(FileBytes(s, maxLength), IndexFor(Blocks(s, maxLength)), e, prefix, found) ==
      match ScanStart(s, maxLength, prefix)
      case None => Ok(found)
      case Some(j) =>
        if e < DataOffset(Blocks(s, maxLength), j) then Panic
        else if EndsWell(s, e, prefix) then Ok(Restrict(ToTable(s[..Whole(s, e)]), prefix) + found)
        else Error
  {
    hide Encode, FileBytes, Blocks, Flat, Label, ToTable, Less, ReadAt, ScanPrefix, EndsWell, Whole, Search, Restrict, HasPrefix,
      Start;
    StartFacts(s, maxLength, prefix);
    var start := ScanStart(s, maxLength, prefix);
    if start.Some? && e >= DataOffset(Blocks(s, maxLength), start.value) {
      StaleScanFrom(s, maxLength, e, prefix, found, start.value);
    }
  }

  lemma StaleScanFrom(s: seq<Entry>, maxLength: int, e: nat, prefix: Bytes, found: Table, j: nat)
    requires Storable(s) && j < |Blocks(s, maxLength)| && DataOffset(Blocks(s, maxLength), j) <= e <= |Encode(s)|
    requires Start(Blocks(s, maxLength), j) == 0 || IsLowerBound(prefix, IndexFor(Blocks(s, maxLength)), j)
    ensures ScanRange(FileBytes(s, maxLength), DataOffset(Blocks(s, maxLength), j), e, prefix, found) ==
      if EndsWell(s, e, prefix) then Ok(Restrict(ToTable(s[..Whole(s, e)]), prefix) + found) else Error
  {
    hide Encode, FileBytes, Blocks, Flat, Label, ToTable, Less, ReadAt, ScanPrefix, OnBoundary, Whole, Restrict, HasPrefix,
      DataOffset, Start, SomeStops, IsLowerBound, IndexFor;
    var b, offset := Start(Blocks(s, maxLength), j), DataOffset(Blocks(s, maxLength), j);
    ReadFrom(s, maxLength, j, e - offset);
    WholeShift(s, b, e - offset);
    EncodeEntryBound(s);
    ScanCutPrefix(s[b..], e - offset, prefix, found);
    var p := Whole(s[b..], e - offset);
    StopsLater(s, maxLength, prefix, j, b + p);
    assert s[b..][..p] == s[b..b + p];
  }

  /** Up to such an end the scan of a file gives what it should if and only if the file is
      skipped, or the end is not before the start block, the scan ends well, and every entry
      with the prefix past the end is one a newer file gave. */
  lemma StaleScanIff(s: seq<Entry>, maxLength: int, e: nat, prefix: Bytes, found: Table)
    requires Storable(s) && e <= |Encode(s)|
    ensures FilePrefix(FileBytes(s, maxLength), IndexFor(Blocks(s, maxLength)), e, prefix, found) ==
        Ok(Restrict(ToTable(s), prefix) + found)
      <==> match ScanStart(s, maxLength, prefix)
        case None => true
        case Some(j) =>
          && DataOffset(Blocks(s, maxLength), j) <= e && EndsWell(s, e, prefix)
          && forall i :: Whole(s, e) <= i < |s| && HasPrefix(s[i].key, prefix) ==> s[i].key in found
  {
    hide Encode, FileBytes, Blocks, IndexFor, ToTable, FilePrefix, EndsWell, Whole, Restrict, HasPrefix, DataOffset, ScanStart, Less;
    StaleScan(s, maxLength, e, prefix, found);
    if ScanStart(s, maxLength, prefix).None? {
      SkippedScan(s, maxLength, prefix, found);
    } else {
      LostIff(s, Whole(s, e), prefix, found);
    }
  }

  lemma SkippedScan(s: seq<Entry>, maxLength: int, prefix: Bytes, found: Table)
    requires Storable(s) && ScanStart(s, maxLength, prefix).None?
    ensures Restrict(ToTable(s), prefix) + found == found
  {
    hide ToTable, Restrict, HasPrefix, Blocks, Search, Encode, FileBytes, ScanPrefix, Less;
    FilePrefixSpec(s, maxLength, prefix, found);
  }

  lemma LostIff(s: seq<Entry>, p: nat, prefix: Bytes, found: Table)
    requires Sorted(s) && p <= |s|
    ensures Restrict(ToTable(s[..p]), prefix) + found == Restrict(ToTable(s), prefix) + found
      <==> forall i :: p <= i < |s| && HasPrefix(s[i].key, prefix) ==> s[i].key in found
  {
    hide ToTable, HasPrefix, Less;
    var part, whole := Restrict(ToTable(s[..p]), prefix), Restrict(ToTable(s), prefix);
    if part + found == whole + found {
      forall i | p <= i < |s| && HasPrefix(s[i].key, prefix)
        ensures s[i].key in found
      {
        ToTableAt(s, i);
        PartTable(s, p, i);
        assert s[i].key in whole + found;
      }
    }
    if forall i :: p <= i < |s| && HasPrefix(s[i].key, prefix) ==> s[i].key in found {
      forall k
        ensures k in part + found <==> k in whole + found
        ensures k in part + found ==> (part + found)[k] == (whole + found)[k]
      {
        PartHolds(s, p, k);
      }
    }
  }

  lemma PartHolds(s: seq<Entry>, p: nat, k: Bytes)
    requires Sorted(s) && p <= |s|
    ensures k in ToTable(s) <==> k in ToTable(s[..p]) || exists i :: p <= i < |s| && s[i].key == k
    ensures k in ToTable(s[..p]) ==> k in ToTable(s) && ToTable(s)[k] == ToTable(s[..p])[k]
  {
    hide ToTable, Less;
    ToTableKeys(s, k);
    ToTableKeys(s[..p], k);
    if k in ToTable(s[..p]) {
      var i :| 0 <= i < p && s[..p][i].key == k;
      ToTableAt(s, i);
      ToTableAt(s[..p], i);
    }
    if k in ToTable(s) {
      var i :| 0 <= i < |s| && s[i].key == k;
      assert i < p ==> s[..p][i].key == k;
    }
  }

  lemma {:induction false} ScanOn(s: seq<Entry>, tail: Bytes, prefix: Bytes, found: Table)
    requires Sorted(s) && forall i :: 0 <= i < |s| ==> EntryFits(s[i])
    ensures ScanPrefix(Encode(s) + tail, prefix, found) ==
      if SomeStops(s, prefix) then Ok(Restrict(ToTable(s), prefix) + found)
      else ScanPrefix(tail, prefix, Restrict(ToTable(s), prefix) + found)
  {
    hide TakeEntry, Encode, ToTable, Less, Restrict, HasPrefix, Cut, ScanPrefix;
    if s == [] {
      NothingCut(0);
      NoEntries();
      NothingToRestrict(prefix, found);
      assert Encode(s) + tail == tail by { EncodeNone(); }
    } else {
      var k, v, rest := s[0].key, s[0].value, s[1..];
      ScanOnStep(s, tail, prefix, found);
      assert s == [s[0]] + rest;
      StopsCons(s[0], rest, prefix);
      ToTableCons(s[0], rest);
      FirstNotInRest(s);
      RestrictCons(k, v, ToTable(rest), prefix);
      if HasPrefix(k, prefix) {
        ScanOn(rest, tail, prefix, if k in found then found else found[k := v]);
        NotInRestricted(ToTable(rest), k, prefix);
        KeepNewer(k, v, Restrict(ToTable(rest), prefix), found);
      } else if Less(prefix, Cut(k, prefix)) {
        RestrictPast(s, prefix);
        NothingToRestrict(prefix, found);
      } else {
        ScanOn(rest, tail, prefix, found);
      }
    }
  }

  lemma EncodeNone()
    ensures Encode([]) == []
  {
  }

  lemma ScanOnStep(s: seq<Entry>, tail: Bytes, prefix: Bytes, found: Table)
    requires s != [] && EntryFits(s[0])
    ensures var rest := Encode(s[1..]) + tail;
      ScanPrefix(Encode(s) + tail, prefix, found) ==
      if HasPrefix(s[0].key, prefix) then
        ScanPrefix(rest, prefix, if s[0].key in found then found else found[s[0].key := s[0].value])
      else if Stops(s[0], prefix) then Ok(found)
      else ScanPrefix(rest, prefix, found)
  {
    hide TakeEntry, Encode, Less, HasPrefix, Cut;
    TakeEncoded(s, tail);
  }

  /** An end past the data loses nothing, but unless the scan stops it goes on to read the
      index block, the footer and zeros as entries. */
  lemma StaleScanBeyond(s: seq<Entry>, maxLength: int, e: nat, prefix: Bytes, found: Table)
    requires Storable(s) && e >= |Encode(s)| && ScanStart(s, maxLength, prefix).Some?
    ensures FilePrefix(FileBytes(s, maxLength), IndexFor(Blocks(s, maxLength)), e, prefix, found) ==
      if SomeStops(s, prefix) then Ok(Restrict(ToTable(s), prefix) + found)
      else ScanPrefix(ReadAt(FileBytes(s, maxLength), |Encode(s)|, e - |Encode(s)|), prefix, Restrict(ToTable(s), prefix) + found)
  {
    hide Encode, FileBytes, Blocks, Flat, Label, ToTable, Less, ReadAt, ScanPrefix, Search, Restrict, HasPrefix,
      SomeStops, Start, IsLowerBound;
    StartFacts(s, maxLength, prefix);
    var j := ScanStart(s, maxLength, prefix).value;
    var b, offset, file := Start(Blocks(s, maxLength), j), DataOffset(Blocks(s, maxLength), j), FileBytes(s, maxLength);
    BlocksFrom(s, maxLength, j);
    ReadFrom(s, maxLength, j, e - offset);
    EncodeEntryBound(s);
    ReadAtRest(file, offset, |Encode(s[b..])|, e - offset);
    ScanOn(s[b..], ReadAt(file, |Encode(s)|, e - |Encode(s)|), prefix, found);
    StopsLater(s, maxLength, prefix, j, |s|);
    assert s[..|s|] == s && s[b..|s|] == s[b..];
  }

  lemma ReadAtRest(file: Bytes, start: nat, m: nat, n: nat)
    requires m <= n
    ensures ReadAt(file, start, n)[m..] == ReadAt(file, start + m, n - m)
  {
  }

  // ----- a scan of everything -----

  lemma EverythingHasNoPrefix(m: Table)
    ensures Restrict(m, []) == m && m + map[] == m
  {
  }

  /** A scan of everything starts at the first block. */
  lemma FromTheStart(s: seq<Entry>, maxLength: int)
    requires Storable(s) && s != []
    ensures ScanStart(s, maxLength, []).Some? && DataOffset(Blocks(s, maxLength), ScanStart(s, maxLength, []).value) == 0
  {
    hide Less, Blocks, Flat, Search, Label, Encode;
    var index := IndexFor(Blocks(s, maxLength));
    LabelsAscend(s, maxLength);
    SearchSpec([], index, 0, |index| - 1, -1);
    FirstLabel(s, maxLength);
    NamedBlocks(s, maxLength);
    assert Blocks(s, maxLength)[..0] == [];
    FlatNone();
    EncodeNone();
    var j := LowerBound([], index);
    if j >= 0 {
      BlockAt(Blocks(s, maxLength), s, j);
      NothingBelowEmpty(index[j].key);
    }
  }

  lemma FlatNone()
    ensures Flat([]) == []
  {
  }

  lemma NothingBelowEmpty(key: Bytes)
    requires LessEq(key, [])
    ensures key == []
  {
  }
}
