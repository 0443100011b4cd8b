/** The readers of one SSTable file: opening it from its footer, the indexed point lookup and
    the indexed prefix scan (sstable/sstable.go), each loop proved against a function. */
module TableReaders {
  import opened ByteStrings
  import opened Tables
  import opened TableFormat

  /** A Go call that returns a value, returns an error, or panics (a slice or allocation out
      of range). */
  datatype Outcome<+T> = Ok(value: T) | Error | Panic

  datatype Opened = Opened(indexOffset: nat, index: seq<IndexEntry>)

  /** How many bytes past the end of a block the point lookup asks for: sstable.go allocates
      `end-start+1` bytes, where `end-start` is the block. */
  const SLACK_AS_WRITTEN: nat := 1

  // ----- reading bytes -----

  function Zeros(n: nat): Bytes {
    seq(n, _ => 0)
  }

  /** `ReadAt` into a fresh buffer of n bytes with `io.EOF` ignored: bytes past the end of the
      file stay zero. */
  function ReadAt(file: Bytes, offset: nat, n: nat): (buf: Bytes)
    ensures |buf| == n
  {
    if offset >= |file| then Zeros(n)
    else if offset + n <= |file| then file[offset..offset + n]
    else file[offset..] + Zeros(n - (|file| - offset))
  }

  /** `extractValueFromSsTable`. */
  function ExtractValue(buf: Bytes, i: nat): (r: Option<Bytes>)
    requires i <= |buf|
    ensures r.Some? <==> Take(buf[i..]).Some?
    ensures r.Some? ==> r.value == Take(buf[i..]).value.value && i + 4 + |r.value| <= |buf|
    ensures r.Some? ==> Take(buf[i..]).value.rest == buf[i + 4 + |r.value|..]
  {
    if i + 4 > |buf| then None
    else
      assert buf[i..][..4] == buf[i..i + 4];
      var n := ReadU32(buf[i..i + 4]);
      if i + 4 + n > |buf| then None
      else
        assert buf[i..][4..4 + n] == buf[i + 4..i + 4 + n];
        assert buf[i..][4 + n..] == buf[i + 4 + n..];
        Some(buf[i + 4..i + 4 + n])
  }

  // ----- binary search on the index -----

  function Search(key: Bytes, index: seq<IndexEntry>, low: int, high: int, best: int): (r: int)
    requires 0 <= low <= high + 1 <= |index| && -1 <= best < |index|
    ensures -1 <= r < |index|
    decreases high - low
  {
    if low > high then best
    else
      var mid := low + (high - low) / 2;
      if LessEq(index[mid].key, key) then Search(key, index, mid + 1, high, mid)
      else Search(key, index, low, mid - 1, best)
  }

  function LowerBound(key: Bytes, index: seq<IndexEntry>): (r: int)
    ensures -1 <= r < |index|
  {
    Search(key, index, 0, |index| - 1, -1)
  }

  ghost predicate IndexSorted(index: seq<IndexEntry>) {
    forall i, j :: 0 <= i < j < |index| ==> Less(index[i].key, index[j].key)
  }

  /** `r` is the last index entry whose key is at most `key`, or -1 when there is none. */
  ghost predicate IsLowerBound(key: Bytes, index: seq<IndexEntry>, r: int) {
    && -1 <= r < |index|
    && (0 <= r ==> LessEq(index[r].key, key))
    && (forall i :: r < i < |index| ==> Less(key, index[i].key))
  }

  lemma {:induction false} SearchSpec(key: Bytes, index: seq<IndexEntry>, low: int, high: int, best: int)
    requires IndexSorted(index)
    requires 0 <= low <= high + 1 <= |index| && best == low - 1
    requires 0 <= best ==> LessEq(index[best].key, key)
    requires forall i :: high < i < |index| ==> Less(key, index[i].key)
    ensures IsLowerBound(key, index, Search(key, index, low, high, best))
    decreases high - low
  {
    hide Less;
    if low <= high {
      var mid := low + (high - low) / 2;
      if LessEq(index[mid].key, key) {
        SearchSpec(key, index, mid + 1, high, mid);
      } else {
        LessTotal(index[mid].key, key);
        forall i | mid - 1 < i < |index|
          ensures Less(key, index[i].key)
        {
          if i > mid {
            LessTransitive(key, index[mid].key, index[i].key);
          }
        }
        SearchSpec(key, index, low, mid - 1, best);
      }
    }
  }

  lemma LowerBoundSpec(key: Bytes, index: seq<IndexEntry>)
    requires IndexSorted(index)
    ensures IsLowerBound(key, index, LowerBound(key, index))
  {
    hide Less, Search;
    SearchSpec(key, index, 0, |index| - 1, -1);
  }

  method GetLowerBound(key: Bytes, index: seq<IndexEntry>) returns (r: int)
    ensures r == LowerBound(key, index)
    ensures IndexSorted(index) ==> IsLowerBound(key, index, r)
  {
    hide Less, LessEq, IndexSorted;
    var low, high := 0, |index| - 1;
    r := -1;
    while low <= high
      invariant 0 <= low <= high + 1 <= |index| && -1 <= r < |index|
      invariant Search(key, index, low, high, r) == LowerBound(key, index)
      decreases high - low
    {
      var mid := low + (high - low) / 2;
      if LessEq(index[mid].key, key) {
        r := mid;
        low := mid + 1;
      } else {
        high := mid - 1;
      }
    }
    if IndexSorted(index) {
      LowerBoundSpec(key, index);
    }
  }

  // ----- scanning a data buffer -----

  datatype Parsed = Parsed(entry: Entry, rest: Bytes)

  /** One key and one value off the front of a buffer. */
  function TakeEntry(buf: Bytes): (p: Option<Parsed>)
    ensures p.Some? ==> |p.value.rest| < |buf|
  {
    match Take(buf)
    case None => None
    case Some(k) =>
      match Take(k.rest)
      case None => None
      case Some(v) => Some(Parsed(Entry(k.value, v.value), v.rest))
  }

  /** The linear scan of one block: the value of the first entry with the key, the empty
      string when the buffer ends cleanly without it. */
  function ScanBlock(buf: Bytes, key: Bytes): Outcome<Bytes>
    decreases |buf|
  {
    if buf == [] then Ok([])
    else match TakeEntry(buf)
      case None => Error
      case Some(p) => if p.entry.key == key then Ok(p.entry.value) else ScanBlock(p.rest, key)
  }

  /** The sequential scan behind a prefix query; entries already in `found` are kept. */
  function ScanPrefix(buf: Bytes, prefix: Bytes, found: Table): Outcome<Table>
    decreases |buf|
  {
    if buf == [] then Ok(found)
    else match TakeEntry(buf)
      case None => Error
      case Some(p) =>
        if HasPrefix(p.entry.key, prefix) then
          ScanPrefix(p.rest, prefix, if p.entry.key in found then found else found[p.entry.key := p.entry.value])
        else if Less(prefix, Cut(p.entry.key, prefix)) then Ok(found)
        else ScanPrefix(p.rest, prefix, found)
  }

  /** The whole-file scan of `buildCompactedMap`; later entries overwrite. */
  function ScanAll(buf: Bytes, found: Table): Outcome<Table>
    decreases |buf|
  {
    if buf == [] then Ok(found)
    else match TakeEntry(buf)
      case None => Error
      case Some(p) => ScanAll(p.rest, found[p.entry.key := p.entry.value])
  }

  /** Taking one whole entry off the front of encoded data. */
  lemma TakeEncoded(s: seq<Entry>, tail: Bytes)
    requires s != [] && EntryFits(s[0])
    ensures Encode(s) + tail != []
    ensures TakeEntry(Encode(s) + tail) == Some(Parsed(s[0], Encode(s[1..]) + tail))
  {
    hide Take;
    var rest := Framed(s[0].value) + (Encode(s[1..]) + tail);
    assert Encode(s) + tail == Framed(s[0].key) + rest;
    TakeFramed(s[0].key, rest);
    TakeFramed(s[0].value, Encode(s[1..]) + tail);
  }

  lemma ScanBlockStep(s: seq<Entry>, tail: Bytes, key: Bytes)
    requires s != [] && EntryFits(s[0])
    ensures ScanBlock(Encode(s) + tail, key) ==
      if s[0].key == key then Ok(s[0].value) else ScanBlock(Encode(s[1..]) + tail, key)
  {
    hide Encode, TakeEntry;
    TakeEncoded(s, tail);
  }

  /** A tail of one to three bytes cannot start an entry, so a scan that reaches it fails. */
  lemma {:induction false} ScanBlockSpec(s: seq<Entry>, tail: Bytes, key: Bytes)
    requires Sorted(s) && |tail| < 4
    requires forall i :: 0 <= i < |s| ==> EntryFits(s[i])
    ensures ScanBlock(Encode(s) + tail, key) ==
      if key in ToTable(s) then Ok(ToTable(s)[key]) else if tail == [] then Ok([]) else Error
  {
    if s == [] {
      assert Encode(s) + tail == tail;
    } else {
      hide Encode, ScanBlock, ToTable, Less;
      ScanBlockStep(s, tail, key);
      ScanBlockSpec(s[1..], tail, key);
      assert s == [s[0]] + s[1..];
      ToTableCons(s[0], s[1..]);
      ToTableAt(s, 0);
    }
  }

  lemma RestrictCons(k: Bytes, v: Bytes, t: Table, prefix: Bytes)
    ensures Restrict(map[k := v] + t, prefix) ==
      if HasPrefix(k, prefix) then map[k := v] + Restrict(t, prefix) else Restrict(t, prefix)
  {
  }

  lemma KeepNewer(k: Bytes, v: Bytes, t: Table, found: Table)
    requires k !in t
    ensures (map[k := v] + t) + found == t + if k in found then found else found[k := v]
  {
  }

  lemma RestrictPast(s: seq<Entry>, prefix: Bytes)
    requires Sorted(s) && s != []
    requires !HasPrefix(s[0].key, prefix) && Less(prefix, Cut(s[0].key, prefix))
    ensures Restrict(ToTable(s), prefix) == map[]
  {
    forall x | x in ToTable(s)
      ensures !HasPrefix(x, prefix)
    {
      ToTableKeys(s, x);
      var i :| 0 <= i < |s| && s[i].key == x;
      if i > 0 {
        PastPrefix(prefix, s[0].key, x);
      }
    }
  }

  lemma ScanPrefixStep(s: seq<Entry>, prefix: Bytes, found: Table)
    requires s != [] && EntryFits(s[0])
    ensures ScanPrefix(Encode(s), prefix, found) ==
      if HasPrefix(s[0].key, prefix) then
        ScanPrefix(Encode(s[1..]), prefix, if s[0].key in found then found else found[s[0].key := s[0].value])
      else if Less(prefix, Cut(s[0].key, prefix)) then Ok(found)
      else ScanPrefix(Encode(s[1..]), prefix, found)
  {
    TakeEncoded(s, []);
    assert Encode(s) + [] == Encode(s) && Encode(s[1..]) + [] == Encode(s[1..]);
  }

  /** The prefix scan collects exactly the entries with the prefix, whether or not it stops
      early, and never overwrites what a newer file gave. */
  lemma {:induction false} ScanPrefixSpec(s: seq<Entry>, prefix: Bytes, found: Table)
    requires Sorted(s)
    requires forall i :: 0 <= i < |s| ==> EntryFits(s[i])
    ensures ScanPrefix(Encode(s), prefix, found) == Ok(Restrict(ToTable(s), prefix) + found)
  {
    if s == [] {
      assert Restrict(ToTable(s), prefix) + found == found;
    } else {
      hide Encode, ScanPrefix, ToTable, Restrict, Less;
      var k, v, rest := s[0].key, s[0].value, s[1..];
      ScanPrefixStep(s, prefix, found);
      assert s == [s[0]] + rest;
      ToTableCons(s[0], rest);
      FirstNotInRest(s);
      RestrictCons(k, v, ToTable(rest), prefix);
      if HasPrefix(k, prefix) {
        ScanPrefixSpec(rest, prefix, if k in found then found else found[k := v]);
        KeepNewer(k, v, Restrict(ToTable(rest), prefix), found);
      } else if Less(prefix, Cut(k, prefix)) {
        RestrictPast(s, prefix);
        assert map[] + found == found;
      } else {
        ScanPrefixSpec(rest, prefix, found);
      }
    }
  }

  lemma FirstNotInRest(s: seq<Entry>)
    requires Sorted(s) && s != []
    ensures s[0].key !in ToTable(s[1..])
  {
    ToTableKeys(s[1..], s[0].key);
    LessIrreflexive(s[0].key);
  }

  lemma InsertThenAdd(found: Table, k: Bytes, v: Bytes, t: Table)
    ensures found[k := v] + t == found + (map[k := v] + t)
  {
  }

  lemma {:induction false} ScanAllSpec(s: seq<Entry>, found: Table)
    requires forall i :: 0 <= i < |s| ==> EntryFits(s[i])
    ensures ScanAll(Encode(s), found) == Ok(found + ToTable(s))
  {
    if s != [] {
      TakeEncoded(s, []);
      assert Encode(s) + [] == Encode(s) && Encode(s[1..]) + [] == Encode(s[1..]);
      ScanAllSpec(s[1..], found[s[0].key := s[0].value]);
      assert s == [s[0]] + s[1..];
      ToTableCons(s[0], s[1..]);
      InsertThenAdd(found, s[0].key, s[0].value, ToTable(s[1..]));
    } else {
      assert found + map[] == found;
    }
  }
}
