/** New files are opened for appending, and a name can be left over from before a crash: what
    becomes of a table written behind left-over bytes (sstable/sstable.go). */
module ReusedNames {
  import opened ByteStrings
  import opened Tables
  import opened TableFormat
  import opened TableReaders
  import opened TableLookup
  import opened TableScans
  import opened MemoryTable
  import opened StaleOffsets

  /** What the file holds after the table has been appended. */
  function Appended(leftover: Bytes, s: seq<Entry>, maxLength: int): Bytes {
    leftover + FileBytes(s, maxLength)
  }

  /** The bytes the readers take for the data. */
  function Region(leftover: Bytes, s: seq<Entry>, maxLength: int): (region: Bytes)
    requires NoEmptyKey(s)
    ensures |region| == |Encode(s)|
  {
    FooterFits(s, maxLength);
    Appended(leftover, s, maxLength)[..|Encode(s)|]
  }

  lemma FooterFits(s: seq<Entry>, maxLength: int)
    requires NoEmptyKey(s)
    ensures |FileBytes(s, maxLength)| >= |Encode(s)| + 4
    ensures |FileBytes(s, maxLength)| == |Encode(s)| + |EncodeIndex(IndexFor(Blocks(s, maxLength)))| + 4
  {
    hide Encode, EncodeIndex, IndexFor, Blocks, FileBytes;
    NamedFile(s, maxLength);
  }

  // ----- reopening -----

  lemma {:induction false} ParsedLength(buf: Bytes)
    requires ParseIndex(buf).Ok?
    ensures |buf| == |EncodeIndex(ParseIndex(buf).value)|
    decreases |buf|
  {
    hide ReadU32;
    if buf != [] {
      var p := TakeIndexEntry(buf).value;
      ParsedLength(p.rest);
    }
  }

  lemma AppendedFooter(leftover: Bytes, s: seq<Entry>, maxLength: int)
    requires Storable(s)
    ensures Footer(Appended(leftover, s, maxLength)) == Ok(|Encode(s)|)
  {
    hide Encode, FileBytes, ReadU32;
    FooterFits(s, maxLength);
    FooterOfFile(s, maxLength);
    var file, both := FileBytes(s, maxLength), Appended(leftover, s, maxLength);
    assert both[|both| - 4..] == file[|file| - 4..];
  }

  /** A start finds in the file the offset and index that were held when it was written if and
      only if nothing was left over: one byte is enough to make the index unreadable or another
      one. */
  lemma ReusedNameIff(leftover: Bytes, s: seq<Entry>, maxLength: int)
    requires Storable(s)
    ensures OpenFile(Appended(leftover, s, maxLength)) == Ok(Opened(|Encode(s)|, IndexFor(Blocks(s, maxLength))))
      <==> leftover == []
  {
    hide Encode, EncodeIndex, IndexFor, Blocks, FileBytes, ParseIndex, Footer;
    var both := Appended(leftover, s, maxLength);
    AppendedFooter(leftover, s, maxLength);
    FooterFits(s, maxLength);
    if leftover == [] {
      assert both == FileBytes(s, maxLength);
      NamedIsNotLone(s, maxLength);
    } else if ParseIndex(both[|Encode(s)|..|both| - 4]).Ok? {
      ParsedLength(both[|Encode(s)|..|both| - 4]);
    }
  }

  // ----- reads through the index held in memory -----

  lemma SameRead(leftover: Bytes, s: seq<Entry>, maxLength: int, start: nat, n: nat)
    requires NoEmptyKey(s) && start + n <= |Encode(s)|
    ensures ReadAt(Appended(leftover, s, maxLength), start, n) == Region(leftover, s, maxLength)[start..start + n]
  {
    hide Encode, FileBytes;
    FooterFits(s, maxLength);
  }

  lemma FreshRegion(s: seq<Entry>, maxLength: int)
    requires NoEmptyKey(s)
    ensures Region([], s, maxLength) == Encode(s) && Appended([], s, maxLength) == FileBytes(s, maxLength)
  {
    hide Encode, FileBytes, IndexAndFooter;
    NamedFile(s, maxLength);
    assert Appended([], s, maxLength) == FileBytes(s, maxLength);
  }

  lemma OffsetsWithin(s: seq<Entry>, maxLength: int, j: nat)
    requires Storable(s) && j < |Blocks(s, maxLength)|
    ensures var index := IndexFor(Blocks(s, maxLength));
      index[j].offset <= EndOffset(index, |Encode(s)|, j) <= |Encode(s)| && index[j].offset == DataOffset(Blocks(s, maxLength), j)
  {
    hide Encode, Blocks, Flat, Label, FileBytes;
    BlockEnd(s, maxLength, j);
    BlockBytes(s, maxLength, j);
    BlocksFrom(s, maxLength, j);
    if j + 1 < |Blocks(s, maxLength)| {
      BlocksFrom(s, maxLength, j + 1);
    }
  }

  lemma SliceOf(file: Bytes, a: Bytes, b: Bytes, c: Bytes)
    requires |a + b + c| < |file| && file[..|a + b + c|] == a + b + c
    ensures LiesAt(file, |a|, |a + b|, b)
  {
    assert file[|a|..|a + b|] == (a + b + c)[|a|..|a + b|] == b;
  }

  lemma PlacedBlock(leftover: Bytes, s: seq<Entry>, maxLength: int, j: nat)
    requires Storable(s) && Region(leftover, s, maxLength) == Encode(s) && j < |Blocks(s, maxLength)|
    ensures LiesAt(Appended(leftover, s, maxLength), DataOffset(Blocks(s, maxLength), j), DataOffset(Blocks(s, maxLength), j + 1),
                   Encode(Blocks(s, maxLength)[j]))
  {
    hide Encode, Blocks, FileBytes, Flat, Label;
    FooterFits(s, maxLength);
    NamedBlocks(s, maxLength);
    var blocks: seq<Block> := Blocks(s, maxLength);
    EncodeParts(blocks, j);
    SliceOf(Appended(leftover, s, maxLength), Encode(Flat(blocks[..j])), Encode(blocks[j]), Encode(Flat(blocks[j + 1..])));
  }

  /** Where the left-over bytes happen to be the beginning of the table, every point lookup
      gives what it gives in a fresh file, with and without the one byte too many. */
  lemma IntactGet(leftover: Bytes, s: seq<Entry>, maxLength: int, key: Bytes, slack: nat)
    requires Storable(s) && Region(leftover, s, maxLength) == Encode(s) && slack <= 1
    ensures FileGet(Appended(leftover, s, maxLength), IndexFor(Blocks(s, maxLength)), |Encode(s)|, key, slack) ==
      if key in ToTable(s) then Ok(ToTable(s)[key])
      else if slack == 0 || s == [] || Less(key, s[0].key) then Ok([])
      else Error
  {
    hide Encode, FileBytes, Blocks, ToTable, Less, ReadBlock, Sorted, NoEmptyKey, Search, Region, Appended, LiesAt;
    var index := IndexFor(Blocks(s, maxLength));
    LabelsAscend(s, maxLength);
    SearchSpec(key, index, 0, |index| - 1, -1);
    var j := LowerBound(key, index);
    if j == -1 {
      BelowTheStream(s, maxLength, key);
    } else {
      AtOrAboveTheStream(s, maxLength, key, j);
      PlacedBlock(leftover, s, maxLength, j);
      ReadPlacedBlock(Appended(leftover, s, maxLength), s, maxLength, key, slack, j);
    }
  }

  /** And so does every prefix scan. */
  lemma IntactScan(leftover: Bytes, s: seq<Entry>, maxLength: int, prefix: Bytes, found: Table)
    requires Storable(s) && Region(leftover, s, maxLength) == Encode(s)
    ensures FilePrefix(Appended(leftover, s, maxLength), IndexFor(Blocks(s, maxLength)), |Encode(s)|, prefix, found) ==
      Ok(Restrict(ToTable(s), prefix) + found)
  {
    hide Encode, Blocks, FileBytes, ToTable, Restrict, Less, ReadAt, ScanPrefix, Search, HasPrefix, IndexFor, Region, Appended;
    FilePrefixSpec(s, maxLength, prefix, found);
    FreshRegion(s, maxLength);
    var index := IndexFor(Blocks(s, maxLength));
    var j := LowerBound(prefix, index);
    if j >= 0 || |index| > 0 {
      var k := if j >= 0 then j else 0;
      OffsetsWithin(s, maxLength, k);
      var start := index[k].offset;
      SameRead(leftover, s, maxLength, start, |Encode(s)| - start);
      SameRead([], s, maxLength, start, |Encode(s)| - start);
    }
  }

  // ----- what a scan of everything says about the bytes -----

  function FirstWins(found: Table, t: seq<Entry>): Table
    decreases |t|
  {
    if t == [] then found
    else FirstWins(if t[0].key in found then found else found[t[0].key := t[0].value], t[1..])
  }

  /** A scan of everything that succeeds has read the encoding of some entries. */
  lemma {:induction false} ScanEverything(buf: Bytes, found: Table) returns (t: seq<Entry>)
    requires ScanPrefix(buf, [], found).Ok?
    ensures Encode(t) == buf && ScanPrefix(buf, [], found).value == FirstWins(found, t)
    ensures forall i :: 0 <= i < |t| ==> EntryFits(t[i])
    decreases |buf|
  {
    hide Encode, TakeEntry;
    if buf == [] {
      EncodeNone();
      t := [];
    } else {
      var p := TakeEntry(buf).value;
      TakeEntryInverts(buf);
      var rest := ScanEverything(p.rest, if p.entry.key in found then found else found[p.entry.key := p.entry.value]);
      t := [p.entry] + rest;
      EncodeCons(t);
      assert t[1..] == rest;
    }
  }

  lemma TakeEntryInverts(buf: Bytes)
    requires TakeEntry(buf).Some?
    ensures buf == EncodeEntry(TakeEntry(buf).value.entry) + TakeEntry(buf).value.rest
    ensures EntryFits(TakeEntry(buf).value.entry)
  {
    hide Take, Framed;
    TakeInverts(buf);
    TakeInverts(Take(buf).value.rest);
  }

  // ----- a left-over that covers the new data -----

  lemma ScanOfEverything(leftover: Bytes, s: seq<Entry>, maxLength: int)
    requires Storable(s) && s != []
    ensures FilePrefix(Appended(leftover, s, maxLength), IndexFor(Blocks(s, maxLength)), |Encode(s)|, [], map[]) ==
      ScanPrefix(Region(leftover, s, maxLength), [], map[])
  {
    hide Encode, Blocks, FileBytes, ReadAt, ScanPrefix, Search, HasPrefix, Region, Appended, Label, Flat;
    FromTheStart(s, maxLength);
    SameRead(leftover, s, maxLength, 0, |Encode(s)|);
    assert Region(leftover, s, maxLength)[0..|Encode(s)|] == Region(leftover, s, maxLength);
  }

  lemma NeverStops(s: seq<Entry>)
    ensures !SomeStops(s, [])
  {
  }

  lemma WholeOfPrefix(s: seq<Entry>, k: nat)
    requires k <= |s|
    ensures Whole(s, |Encode(s[..k])|) == k
  {
    hide Encode, Whole;
    var n := |Encode(s[..k])|;
    var p := Whole(s, n);
    if p < k {
      WholeIff(s, n, p);
      LongerPrefix(s, p + 1, k);
    }
    if k < |s| {
      WholeIff(s, n, k);
      assert s[..k + 1] == s[..k] + [s[k]];
      EncodeAppend(s[..k], s[k]);
      EntryIsSome(s[k]);
    }
  }

  /** A left-over part of another table, at least as long as the new data and within its own:
      a scan of everything through the index held in memory gives the new table if and only if
      that is how the other one begins. */
  lemma CoveringLeftoverIff(leftover: Bytes, other: seq<Entry>, s: seq<Entry>, maxLength: int)
    requires Storable(s) && Storable(other) && s != []
    requires leftover <= FileBytes(other, maxLength) && |Encode(s)| <= |leftover| && |Encode(s)| <= |Encode(other)|
    ensures FilePrefix(Appended(leftover, s, maxLength), IndexFor(Blocks(s, maxLength)), |Encode(s)|, [], map[]) == Ok(ToTable(s))
      <==> s <= other
  {
    hide Encode, Blocks, IndexFor, FileBytes, FilePrefix, ToTable, ScanPrefix, Restrict, Whole, Less, SomeStops;
    ScanOfEverything(leftover, s, maxLength);
    var n := |Encode(s)|;
    CoveredRegion(leftover, other, s, maxLength);
    EncodeEntryBound(other);
    ScanCutPrefix(other, n, [], map[]);
    var p := Whole(other, n);
    NeverStops(other[..p]);
    EverythingHasNoPrefix(ToTable(other[..p]));
    if OnBoundary(other, n) && ToTable(other[..p]) == ToTable(s) {
      SortedUnique(other[..p], s);
    }
    if s <= other {
      assert other[..|s|] == s;
      WholeOfPrefix(other, |s|);
    }
  }

  lemma CoveredRegion(leftover: Bytes, other: seq<Entry>, s: seq<Entry>, maxLength: int)
    requires NoEmptyKey(s) && NoEmptyKey(other)
    requires leftover <= FileBytes(other, maxLength) && |Encode(s)| <= |leftover| && |Encode(s)| <= |Encode(other)|
    ensures Region(leftover, s, maxLength) == Encode(other)[..|Encode(s)|]
  {
    hide Encode, FileBytes, IndexAndFooter;
    NamedFile(other, maxLength);
    FooterFits(s, maxLength);
    var n, file := |Encode(s)|, FileBytes(other, maxLength);
    assert Region(leftover, s, maxLength) == leftover[..n];
    assert leftover == file[..|leftover|];
    assert leftover[..n] == file[..n] == Encode(other)[..n];
  }

  // ----- any left-over -----

  /** What the entries of a table take up in a file. */
  ghost function Footprint(m: Table): nat {
    TotalSize(m) + 8 * |m|
  }

  lemma FootprintPut(m: Table, e: Entry)
    requires e.key !in m
    ensures Footprint(m[e.key := e.value]) == Footprint(m) + |EncodeEntry(e)|
  {
    hide TotalSize;
    TotalSizePut(m, e.key, e.value);
    assert m[e.key := e.value].Keys == m.Keys + {e.key};
    assert |m[e.key := e.value].Keys| == |m[e.key := e.value]| && |m.Keys| == |m|;
  }

  /** No entry repeats a key. */
  ghost predicate NewKeys(found: Table, t: seq<Entry>)
    decreases |t|
  {
    t == [] || (t[0].key !in found && NewKeys(found[t[0].key := t[0].value], t[1..]))
  }

  /** Entries that repeat no key take up exactly what their table does, others more. */
  lemma {:induction false} FirstWinsFootprint(found: Table, t: seq<Entry>)
    ensures Footprint(FirstWins(found, t)) <= Footprint(found) + |Encode(t)|
    ensures Footprint(FirstWins(found, t)) == Footprint(found) + |Encode(t)| <==> NewKeys(found, t)
    decreases |t|
  {
    hide Footprint, Encode, EncodeEntry;
    if t == [] {
      EncodeNone();
    } else {
      EncodeCons(t);
      if t[0].key in found {
        FirstWinsFootprint(found, t[1..]);
        EntryIsSome(t[0]);
      } else {
        FootprintPut(found, t[0]);
        FirstWinsFootprint(found[t[0].key := t[0].value], t[1..]);
      }
    }
  }

  lemma {:induction false} NewKeysAre(found: Table, t: seq<Entry>, i: nat)
    requires NewKeys(found, t) && i < |t|
    ensures t[i].key !in found && t[i].key in FirstWins(found, t) && FirstWins(found, t)[t[i].key] == t[i].value
    ensures forall k :: 0 <= k < i ==> t[k].key != t[i].key
    decreases |t|
  {
    var more := found[t[0].key := t[0].value];
    if i == 0 {
      FirstWinsKeeps(more, t[1..], t[0].key);
    } else {
      NewKeysAre(more, t[1..], i - 1);
      forall k | 0 <= k < i
        ensures t[k].key != t[i].key
      {
        assert k > 0 ==> t[k] == t[1..][k - 1];
      }
    }
  }

  lemma {:induction false} FirstWinsKeeps(found: Table, t: seq<Entry>, k: Bytes)
    requires k in found
    ensures k in FirstWins(found, t) && FirstWins(found, t)[k] == found[k]
    decreases |t|
  {
    if t != [] {
      FirstWinsKeeps(if t[0].key in found then found else found[t[0].key := t[0].value], t[1..], k);
    }
  }

  lemma {:induction false} SortedHasNewKeys(found: Table, s: seq<Entry>)
    requires Sorted(s) && forall i :: 0 <= i < |s| ==> s[i].key !in found
    ensures NewKeys(found, s) && FirstWins(found, s) == found + ToTable(s)
    decreases |s|
  {
    hide ToTable, Less;
    if s == [] {
      NoEntries();
      assert found + map[] == found;
    } else {
      var k, v, rest := s[0].key, s[0].value, s[1..];
      forall i | 0 <= i < |rest|
        ensures rest[i].key !in found[k := v]
      {
        assert rest[i] == s[i + 1];
        LessIrreflexive(k);
      }
      SortedHasNewKeys(found[k := v], rest);
      assert s == [s[0]] + rest;
      ToTableCons(s[0], rest);
      InsertThenAdd(found, k, v, ToTable(rest));
    }
  }

  /** A scan of everything that gives the table of s has read a rearrangement of s. */
  lemma Rearranged(t: seq<Entry>, s: seq<Entry>)
    requires Sorted(s) && FirstWins(map[], t) == ToTable(s) && |Encode(t)| == |Encode(s)|
    ensures NewKeys(map[], t)
  {
    hide Footprint, Encode, ToTable, Less;
    SortedHasNewKeys(map[], s);
    NothingToRestrict([], ToTable(s));
    FirstWinsFootprint(map[], t);
    FirstWinsFootprint(map[], s);
  }

  /** No key of the stream is the beginning of a later one. */
  ghost predicate PrefixFree(s: seq<Entry>) {
    forall i, j :: 0 <= i < j < |s| ==> !HasPrefix(s[j].key, s[i].key)
  }

  lemma {:induction false} CutAbove(k: Bytes, prefix: Bytes)
    requires Less(prefix, k) && !HasPrefix(k, prefix)
    ensures Less(prefix, Cut(k, prefix))
  {
    PrefixStep(k, prefix);
    if prefix != [] && k[0] == prefix[0] {
      CutAbove(k[1..], prefix[1..]);
      assert Cut(k, prefix)[1..] == Cut(k[1..], prefix[1..]);
    }
  }

  lemma BelowHasNoPrefix(k: Bytes, prefix: Bytes)
    requires Less(k, prefix)
    ensures !HasPrefix(k, prefix)
  {
    hide Less;
    LessAsymmetric(k, prefix);
    LessIrreflexive(k);
    if HasPrefix(k, prefix) {
      PrefixIsBelow(k, prefix);
    }
  }

  lemma NothingWithPrefix(s: seq<Entry>, b: nat, i: nat)
    requires Sorted(s) && b <= i < |s|
    ensures !SomeStops(s[b..i], s[i].key) && Restrict(ToTable(s[b..i]), s[i].key) == map[]
  {
    hide ToTable, Less, HasPrefix, Cut;
    forall k | b <= k < i
      ensures !Stops(s[k], s[i].key) && !HasPrefix(s[k].key, s[i].key)
    {
      CutNotAbove(s[k].key, s[i].key);
      BelowHasNoPrefix(s[k].key, s[i].key);
    }
    forall x | x in ToTable(s[b..i])
      ensures !HasPrefix(x, s[i].key)
    {
      ToTableKeys(s[b..i], x);
    }
  }

  /** The scan for the key of the i-th entry, where the bytes agree up to it and a later entry of
      s comes next: it stops there and the key is lost. */
  lemma ScanLosesKey(leftover: Bytes, s: seq<Entry>, maxLength: int, t: seq<Entry>, i: nat, m: nat)
    requires Storable(s) && PrefixFree(s) && i < m < |s| && i < |t| && t[..i] == s[..i] && t[i] == s[m]
    requires Region(leftover, s, maxLength) == Encode(t)
    ensures FilePrefix(Appended(leftover, s, maxLength), IndexFor(Blocks(s, maxLength)), |Encode(s)|, s[i].key, map[]) == Ok(map[])
  {
    hide Encode, Blocks, ScanPrefix, Region, FilePrefix, IndexFor, PrefixFree, Start, Storable, IsLowerBound, LowerBound, DataOffset;
    KeyHasBlock(s, maxLength, i);
    var j := LowerBound(s[i].key, IndexFor(Blocks(s, maxLength)));
    HeldScan(leftover, s, maxLength, s[i].key, j);
    ScanMeetsLater(s, t, Start(Blocks(s, maxLength), j), i, m);
  }

  lemma HeldScan(leftover: Bytes, s: seq<Entry>, maxLength: int, prefix: Bytes, j: nat)
    requires Storable(s) && j == LowerBound(prefix, IndexFor(Blocks(s, maxLength)))
    ensures Start(Blocks(s, maxLength), j) <= |s| && |Encode(s[..Start(Blocks(s, maxLength), j)])| <= |Encode(s)|
    ensures FilePrefix(Appended(leftover, s, maxLength), IndexFor(Blocks(s, maxLength)), |Encode(s)|, prefix, map[]) ==
      ScanPrefix(Region(leftover, s, maxLength)[|Encode(s[..Start(Blocks(s, maxLength), j)])|..], prefix, map[])
  {
    hide Encode, Blocks, FileBytes, ReadAt, ScanPrefix, Search, Region, Appended, Label, Flat, Start;
    ReadFrom(s, maxLength, j, 0);
    var offset, n := |Encode(s[..Start(Blocks(s, maxLength), j)])|, |Encode(s)|;
    SameRead(leftover, s, maxLength, offset, n - offset);
    assert Region(leftover, s, maxLength)[offset..n] == Region(leftover, s, maxLength)[offset..];
  }

  lemma ScanMeetsLater(s: seq<Entry>, t: seq<Entry>, b: nat, i: nat, m: nat)
    requires Storable(s) && PrefixFree(s) && b <= i < m < |s| && i < |t| && t[..i] == s[..i] && t[i] == s[m]
    ensures |Encode(s[..b])| <= |Encode(t)|
    ensures ScanPrefix(Encode(t)[|Encode(s[..b])|..], s[i].key, map[]) == Ok(map[])
  {
    hide Encode, ScanPrefix, HasPrefix, ToTable, Restrict, Less, Cut, PrefixFree, SomeStops;
    TailAfter(t, s, b, i);
    EncodeEntryBound(s);
    NothingWithPrefix(s, b, i);
    var rest := Encode([t[i]]) + Encode(t[i + 1..]);
    assert Encode(t)[|Encode(s[..b])|..] == Encode(s[b..i]) + rest;
    ScanOn(s[b..i], rest, s[i].key, map[]);
    NothingToRestrict(s[i].key, map[]);
    StopsAt(s, i, m);
    ScanOn([s[m]], Encode(t[i + 1..]), s[i].key, map[]);
  }

  lemma TailAfter(t: seq<Entry>, s: seq<Entry>, b: nat, i: nat)
    requires b <= i < |t| && i <= |s| && t[..i] == s[..i]
    ensures Encode(t) == Encode(s[..b]) + (Encode(s[b..i]) + (Encode([t[i]]) + Encode(t[i + 1..])))
  {
    hide Encode;
    SplitThere(t, s, b, i);
    EncodeConcat(s[..b], s[b..i] + ([t[i]] + t[i + 1..]));
    EncodeConcat(s[b..i], [t[i]] + t[i + 1..]);
    EncodeConcat([t[i]], t[i + 1..]);
  }

  lemma SplitThere(t: seq<Entry>, s: seq<Entry>, b: nat, i: nat)
    requires b <= i < |t| && i <= |s| && t[..i] == s[..i]
    ensures t == s[..b] + (s[b..i] + ([t[i]] + t[i + 1..]))
  {
    assert s[..i] == s[..b] + s[b..i];
    assert t == t[..i] + ([t[i]] + t[i + 1..]);
  }

  lemma StopsAt(s: seq<Entry>, i: nat, m: nat)
    requires Sorted(s) && PrefixFree(s) && i < m < |s|
    ensures SomeStops([s[m]], s[i].key) && Restrict(ToTable([s[m]]), s[i].key) == map[]
  {
    hide ToTable, Less, HasPrefix, Cut;
    CutAbove(s[m].key, s[i].key);
    assert Stops([s[m]][0], s[i].key);
    ToTableSingle(s[m]);
  }

  /** Every scan gives what it should. */
  ghost predicate ScansRight(leftover: Bytes, s: seq<Entry>, maxLength: int) {
    forall prefix :: FilePrefix(Appended(leftover, s, maxLength), IndexFor(Blocks(s, maxLength)), |Encode(s)|, prefix, map[]) ==
      Ok(Restrict(ToTable(s), prefix))
  }

  lemma KeyInScan(s: seq<Entry>, i: nat)
    requires Sorted(s) && i < |s|
    ensures Restrict(ToTable(s), s[i].key) != map[]
  {
    hide ToTable, Less;
    ToTableAt(s, i);
    assert HasPrefix(s[i].key, s[i].key);
    assert s[i].key in Restrict(ToTable(s), s[i].key);
  }

  /** So the entries read are those of s one by one. */
  lemma NextAgrees(leftover: Bytes, s: seq<Entry>, maxLength: int, t: seq<Entry>, i: nat)
    requires Storable(s) && PrefixFree(s) && ScansRight(leftover, s, maxLength)
    requires Region(leftover, s, maxLength) == Encode(t) && FirstWins(map[], t) == ToTable(s)
    requires i < |s| && i < |t| && t[..i] == s[..i]
    ensures t[i] == s[i]
  {
    hide Encode, Blocks, FileBytes, FilePrefix, Region, Appended, ToTable, Restrict, Less, PrefixFree, HasPrefix, IndexFor;
    forall k | 0 <= k < i
      ensures t[k] == s[k]
    {
      assert t[..i][k] == s[..i][k];
    }
    Rearranged(t, s);
    NewKeysAre(map[], t, i);
    ToTableKeys(s, t[i].key);
    var m :| 0 <= m < |s| && s[m].key == t[i].key;
    ToTableAt(s, m);
    if m > i {
      ScanLosesKey(leftover, s, maxLength, t, i, m);
      KeyInScan(s, i);
    }
  }

  lemma PartIsShorter(s: seq<Entry>, i: nat)
    requires i < |s|
    ensures |Encode(s[..i])| < |Encode(s)|
  {
    hide Encode, EncodeEntry;
    EncodeAppend(s[..i], s[i]);
    assert s[..i + 1] == s[..i] + [s[i]];
    EntryIsSome(s[i]);
    LongerPrefix(s, i + 1, |s|);
    assert s[..|s|] == s;
  }

  lemma {:induction false} AllAgree(leftover: Bytes, s: seq<Entry>, maxLength: int, t: seq<Entry>, i: nat)
    requires Storable(s) && PrefixFree(s) && ScansRight(leftover, s, maxLength)
    requires Region(leftover, s, maxLength) == Encode(t) && FirstWins(map[], t) == ToTable(s)
    requires i <= |s|
    ensures i <= |t| && t[..i] == s[..i]
  {
    hide Encode, Region, Storable, PrefixFree, ScansRight, ToTable, FirstWins;
    if i > 0 {
      AllAgree(leftover, s, maxLength, t, i - 1);
      PartIsShorter(s, i - 1);
      assert t[..|t|] == t;
      NextAgrees(leftover, s, maxLength, t, i - 1);
      assert t[..i] == t[..i - 1] + [t[i - 1]] && s[..i] == s[..i - 1] + [s[i - 1]];
    }
  }

  /** Whatever is left over: where no key is the beginning of another, every prefix scan through
      the index held in memory is right if and only if the bytes in the data's place are the
      data. */
  lemma LeftoverScansIff(leftover: Bytes, s: seq<Entry>, maxLength: int)
    requires Storable(s) && PrefixFree(s)
    ensures ScansRight(leftover, s, maxLength) <==> Region(leftover, s, maxLength) == Encode(s)
  {
    hide Encode, Blocks, FileBytes, FilePrefix, Region, Appended, ToTable, Restrict, PrefixFree, IndexFor, ScanPrefix, FirstWins;
    if Region(leftover, s, maxLength) == Encode(s) {
      forall prefix
        ensures FilePrefix(Appended(leftover, s, maxLength), IndexFor(Blocks(s, maxLength)), |Encode(s)|, prefix, map[]) ==
          Ok(Restrict(ToTable(s), prefix))
      {
        IntactScan(leftover, s, maxLength, prefix, map[]);
        assert Restrict(ToTable(s), prefix) + map[] == Restrict(ToTable(s), prefix);
      }
    }
    if ScansRight(leftover, s, maxLength) {
      if s == [] {
        EncodeNone();
      } else {
        ScanOfEverything(leftover, s, maxLength);
        EverythingHasNoPrefix(ToTable(s));
        var t := ScanEverything(Region(leftover, s, maxLength), map[]);
        AllAgree(leftover, s, maxLength, t, |s|);
        assert t == s + t[|s|..];
        EncodeConcat(s, t[|s|..]);
        NoMore(t[|s|..]);
      }
    }
  }

  lemma NoMore(t: seq<Entry>)
    requires |Encode(t)| == 0
    ensures t == []
  {
  }
}
