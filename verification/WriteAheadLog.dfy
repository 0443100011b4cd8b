/** The write-ahead log: `[length][payload][checksum]` records appended to one file
    (wal/wal.go). The checksum is any function of the payload. */
module WriteAheadLog {
  import opened ByteStrings

  const MAX_PAYLOAD: int := 1_000_000

  /** `crc32.ChecksumIEEE`, of which nothing is assumed; 32 bits of it are stored. */
  type Checksum = Bytes -> int

  datatype Fault = PartialLength | TooLarge | PartialPayload | PartialChecksum | BadChecksum

  datatype ReadResult = Payload(payload: Bytes, rest: Bytes) | Eof | Failed(fault: Fault)

  function Record(crc: Checksum, payload: Bytes): (r: Bytes)
    ensures |r| == |payload| + 8
  {
    U32(|payload|) + payload + U32(crc(payload))
  }

  /** `ReadEntry` on the bytes not read yet. `io.ReadFull` reports a clean end of file when it
      gets nothing at all, so a log cut right after a length or right after a payload ends as
      if the record had never been begun. */
  function ReadRecord(crc: Checksum, buf: Bytes): (r: ReadResult)
    ensures r.Payload? ==> |r.rest| < |buf| && |r.payload| <= MAX_PAYLOAD
  {
    if buf == [] then Eof
    else if |buf| < 4 then Failed(PartialLength)
    else
      var n := ReadU32(buf[..4]);
      if n > MAX_PAYLOAD then Failed(TooLarge)
      else if n > 0 && |buf| == 4 then Eof
      else if |buf| < 4 + n then Failed(PartialPayload)
      else if |buf| == 4 + n then Eof
      else if |buf| < 8 + n then Failed(PartialChecksum)
      else if ReadU32(buf[4 + n..8 + n]) != crc(buf[4..4 + n]) % U32_LIMIT then Failed(BadChecksum)
      else Payload(buf[4..4 + n], buf[8 + n..])
  }

  /** Everything a reader gets before the end of the file or the first fault. */
  datatype Reading = Reading(payloads: seq<Bytes>, fault: Option<Fault>)

  function ReadLog(crc: Checksum, buf: Bytes): Reading
    decreases |buf|
  {
    match ReadRecord(crc, buf)
    case Eof => Reading([], None)
    case Failed(f) => Reading([], Some(f))
    case Payload(p, rest) =>
      var more := ReadLog(crc, rest);
      Reading([p] + more.payloads, more.fault)
  }

  function Log(crc: Checksum, payloads: seq<Bytes>): Bytes {
    if payloads == [] then [] else Record(crc, payloads[0]) + Log(crc, payloads[1..])
  }

  predicate Readable(payloads: seq<Bytes>) {
    forall i :: 0 <= i < |payloads| ==> |payloads[i]| <= MAX_PAYLOAD
  }

  lemma {:induction false} LogConcat(crc: Checksum, a: seq<Bytes>, b: seq<Bytes>)
    ensures Log(crc, a + b) == Log(crc, a) + Log(crc, b)
  {
    if a == [] {
      assert a + b == b;
    } else {
      assert (a + b)[1..] == a[1..] + b;
      LogConcat(crc, a[1..], b);
    }
  }

  lemma LogAppend(crc: Checksum, payloads: seq<Bytes>, p: Bytes)
    ensures Log(crc, payloads + [p]) == Log(crc, payloads) + Record(crc, p)
  {
    LogConcat(crc, payloads, [p]);
    assert [p][1..] == [];
    assert Log(crc, [p]) == Record(crc, p) + Log(crc, [p][1..]);
  }

  lemma RecordSlices(crc: Checksum, p: Bytes, rest: Bytes)
    ensures var buf := Record(crc, p) + rest;
      && buf[..4] == U32(|p|) && buf[4..4 + |p|] == p
      && buf[4 + |p|..8 + |p|] == U32(crc(p)) && buf[8 + |p|..] == rest
  {
    hide U32;
  }

  /** A record is read back if and only if its payload is within the reader's limit, which
      the writer does not check. */
  lemma RecordReadIff(crc: Checksum, p: Bytes, rest: Bytes)
    ensures ReadRecord(crc, Record(crc, p) + rest) == Payload(p, rest) <==> |p| <= 1_000_000
  {
    hide U32, ReadU32, Record;
    if |p| <= MAX_PAYLOAD {
      RecordSlices(crc, p, rest);
      U32RoundTrip(|p|);
      U32RoundTrip(crc(p));
    }
  }

  /** And nothing else is read: whatever is accepted is a record, length, payload and checksum,
      of just the payload returned. */
  lemma PayloadIff(crc: Checksum, buf: Bytes, p: Bytes, rest: Bytes)
    ensures ReadRecord(crc, buf) == Payload(p, rest) <==> |p| <= 1_000_000 && buf == Record(crc, p) + rest
  {
    hide U32, ReadU32;
    if ReadRecord(crc, buf) == Payload(p, rest) {
      var n := |p|;
      ReadU32RoundTrip(buf[..4]);
      ReadU32RoundTrip(buf[4 + n..8 + n]);
      SameLow(ReadU32(buf[4 + n..8 + n]), crc(p));
      assert buf == buf[..4] + buf[4..4 + n] + buf[4 + n..8 + n] + buf[8 + n..];
    }
    RecordReadIff(crc, p, rest);
  }

  lemma ReadOneMore(crc: Checksum, p: Bytes, rest: Bytes)
    requires |p| <= MAX_PAYLOAD
    ensures ReadLog(crc, Record(crc, p) + rest) == Reading([p] + ReadLog(crc, rest).payloads, ReadLog(crc, rest).fault)
  {
    hide Record, ReadRecord;
    RecordReadIff(crc, p, rest);
  }

  lemma {:induction false} ReadWholeRecords(crc: Checksum, payloads: seq<Bytes>, tail: Bytes)
    requires Readable(payloads)
    ensures ReadLog(crc, Log(crc, payloads) + tail) ==
      Reading(payloads + ReadLog(crc, tail).payloads, ReadLog(crc, tail).fault)
  {
    hide Record, ReadLog;
    var more := ReadLog(crc, tail).payloads;
    if payloads == [] {
      assert Log(crc, payloads) + tail == tail && payloads + more == more;
    } else {
      var p, rest := payloads[0], Log(crc, payloads[1..]) + tail;
      assert Log(crc, payloads) + tail == Record(crc, p) + rest;
      ReadOneMore(crc, p, rest);
      ReadWholeRecords(crc, payloads[1..], tail);
      assert payloads + more == [p] + (payloads[1..] + more);
    }
  }

  // ----- truncated logs -----

  /** What the reader makes of the first n bytes of a record with payload p. */
  function TornOutcome(p: Bytes, n: nat): Option<Fault> {
    if n == 0 || n == 4 || n == 4 + |p| then None
    else if n < 4 then Some(PartialLength)
    else if n < 4 + |p| then Some(PartialPayload)
    else Some(PartialChecksum)
  }

  lemma TornRecord(crc: Checksum, p: Bytes, n: nat)
    requires |p| <= MAX_PAYLOAD && n < |Record(crc, p)|
    ensures ReadLog(crc, Record(crc, p)[..n]) == Reading([], TornOutcome(p, n))
  {
    hide U32, ReadU32;
    var buf := Record(crc, p)[..n];
    if n >= 4 {
      assert buf[..4] == U32(|p|);
      U32RoundTrip(|p|);
    }
  }

  /** Any cut of a log gives exactly the payloads of the complete records before it, in order,
      whatever the checksum; then a clean end if the cut leaves nothing, only a length, or a
      length and a payload of the next record, and a partial-write fault otherwise. */
  lemma TruncatedLog(crc: Checksum, payloads: seq<Bytes>, k: nat, n: nat)
    requires Readable(payloads) && k < |payloads| && n < |Record(crc, payloads[k])|
    ensures |Log(crc, payloads[..k])| + n <= |Log(crc, payloads)|
    ensures ReadLog(crc, Log(crc, payloads)[..|Log(crc, payloads[..k])| + n]) ==
      Reading(payloads[..k], TornOutcome(payloads[k], n))
  {
    hide Record, Log, ReadLog, TornOutcome;
    var p := payloads[k];
    assert payloads == (payloads[..k] + [p]) + payloads[k + 1..];
    LogConcat(crc, payloads[..k] + [p], payloads[k + 1..]);
    LogAppend(crc, payloads[..k], p);
    var cut := Log(crc, payloads)[..|Log(crc, payloads[..k])| + n];
    assert cut == Log(crc, payloads[..k]) + Record(crc, p)[..n];
    ReadWholeRecords(crc, payloads[..k], Record(crc, p)[..n]);
    TornRecord(crc, p, n);
    assert payloads[..k] + [] == payloads[..k];
  }

  /** Every cut short of the whole log is one of those. */
  lemma {:induction false} EveryCut(crc: Checksum, payloads: seq<Bytes>, cut: nat) returns (k: nat, n: nat)
    requires cut < |Log(crc, payloads)|
    ensures k < |payloads| && n < |Record(crc, payloads[k])|
    ensures cut == |Log(crc, payloads[..k])| + n
  {
    hide Record;
    var first := |Record(crc, payloads[0])|;
    assert payloads[..0] == [];
    if cut < first {
      k, n := 0, cut;
    } else {
      k, n := EveryCut(crc, payloads[1..], cut - first);
      assert payloads[..k + 1][1..] == payloads[1..][..k];
      k := k + 1;
    }
  }

  lemma WholeLog(crc: Checksum, payloads: seq<Bytes>)
    requires Readable(payloads)
    ensures ReadLog(crc, Log(crc, payloads)) == Reading(payloads, None)
  {
    hide Record, Log;
    ReadWholeRecords(crc, payloads, []);
    assert Log(crc, payloads) + [] == Log(crc, payloads);
    assert payloads + [] == payloads;
  }

  // ----- the next write after a torn record -----

  /** One record and then a clean end. */
  lemma JustOne(crc: Checksum, payloads: seq<Bytes>, tail: Bytes, p: Bytes)
    requires Readable(payloads)
    ensures ReadLog(crc, Log(crc, payloads) + tail) == Reading(payloads + [p], None)
      <==> var r := ReadRecord(crc, tail); r.Payload? && r.payload == p && ReadRecord(crc, r.rest) == Eof
  {
    hide ReadRecord, Log;
    ReadWholeRecords(crc, payloads, tail);
    var read := ReadLog(crc, tail);
    if payloads + read.payloads == payloads + [p] {
      assert (payloads + read.payloads)[|payloads|..] == read.payloads && (payloads + [p])[|payloads|..] == [p];
      assert read.payloads == [p];
    }
    var r := ReadRecord(crc, tail);
    if r.Payload? {
      var more := ReadLog(crc, r.rest);
      assert [r.payload] + more.payloads == [p] <==> r.payload == p && more.payloads == [] by {
        assert ([r.payload] + more.payloads)[0] == r.payload && ([r.payload] + more.payloads)[1..] == more.payloads;
      }
    }
  }

  /** What a write has to be to survive behind a torn length. */
  predicate FitsTornLength(crc: Checksum, torn: Bytes, p: Bytes) {
    && |p| == |torn|
    && (U32(|p|) + p)[..|p|] == p && ReadU32((U32(|p|) + p)[|p|..]) == crc(p) % U32_LIMIT <= MAX_PAYLOAD
  }

  /** A cut that leaves only a length is read as a clean end, and the next write lands behind
      it. It is read back if and only if it has the length that was torn off, repeats its own
      length throughout, checksum included, and that checksum is a length the reader accepts. */
  lemma TornLengthIff(crc: Checksum, payloads: seq<Bytes>, torn: Bytes, p: Bytes)
    requires Readable(payloads) && |torn| <= MAX_PAYLOAD
    ensures ReadLog(crc, Log(crc, payloads) + (Record(crc, torn)[..4] + Record(crc, p))) == Reading(payloads + [p], None)
      <==> FitsTornLength(crc, torn, p)
  {
    hide U32, ReadU32, Log, ReadLog, ReadRecord;
    var tail := Record(crc, torn)[..4] + Record(crc, p);
    JustOne(crc, payloads, tail, p);
    RecordBehindLength(crc, torn, p);
    if |p| == |torn| {
      LoneLength(crc, crc(p));
    }
  }

  lemma RecordBehindLength(crc: Checksum, torn: Bytes, p: Bytes)
    requires |torn| <= MAX_PAYLOAD
    ensures var r := ReadRecord(crc, Record(crc, torn)[..4] + Record(crc, p));
      && ((r.Payload? && r.payload == p) <==> (|p| == |torn| && (U32(|p|) + p)[..|p|] == p
           && ReadU32((U32(|p|) + p)[|p|..]) == crc(p) % U32_LIMIT))
      && (r.Payload? && r.payload == p ==> r.rest == U32(crc(p)))
  {
    hide U32, ReadU32;
    var tail := Record(crc, torn)[..4] + Record(crc, p);
    var n := |torn|;
    U32RoundTrip(n);
    assert tail[..4] == U32(n);
    if |p| == n {
      assert tail[4..4 + n] == (U32(n) + p)[..n];
      assert tail[4 + n..8 + n] == (U32(n) + p)[n..];
      assert tail[8 + n..] == U32(crc(p));
    }
  }

  lemma LoneLength(crc: Checksum, n: int)
    ensures ReadRecord(crc, U32(n)) == Eof <==> n % U32_LIMIT <= MAX_PAYLOAD
  {
    hide U32, ReadU32;
    U32RoundTrip(n);
    assert U32(n)[..4] == U32(n);
  }

  /** What a write has to be to survive behind a torn payload. */
  predicate FitsTornPayload(crc: Checksum, torn: Bytes, p: Bytes) {
    && p == torn && crc(p) % U32_LIMIT == |p|
    && ReadU32((p + U32(|p|))[..4]) == |p|
  }

  /** A cut behind a payload is read as a clean end too; then the length of the next write is
      taken for the missing checksum. The next start is refused unless they agree, and the
      write is read back if and only if it is the torn payload again, its checksum is its
      length, and it starts with that length. */
  lemma TornPayloadIff(crc: Checksum, payloads: seq<Bytes>, torn: Bytes, p: Bytes)
    requires Readable(payloads) && |torn| <= MAX_PAYLOAD
    ensures var log := Log(crc, payloads) + (Record(crc, torn)[..4 + |torn|] + Record(crc, p));
      && (crc(torn) % U32_LIMIT != |p| % U32_LIMIT ==> ReadLog(crc, log) == Reading(payloads, Some(BadChecksum)))
      && (ReadLog(crc, log) == Reading(payloads + [p], None) <==> FitsTornPayload(crc, torn, p))
  {
    hide U32, ReadU32, Log, ReadRecord;
    var tail := Record(crc, torn)[..4 + |torn|] + Record(crc, p);
    JustOne(crc, payloads, tail, p);
    ReadWholeRecords(crc, payloads, tail);
    RecordBehindPayload(crc, torn, p);
    assert payloads + [] == payloads;
    if p == torn && crc(p) % U32_LIMIT == |p| {
      SameBytes(crc(p), |p|);
      PayloadAgain(crc, p);
    }
  }

  lemma SameBytes(a: int, b: int)
    requires a % U32_LIMIT == b % U32_LIMIT
    ensures U32(a) == U32(b)
  {
  }

  lemma RecordBehindPayload(crc: Checksum, torn: Bytes, p: Bytes)
    requires |torn| <= MAX_PAYLOAD
    ensures ReadRecord(crc, Record(crc, torn)[..4 + |torn|] + Record(crc, p)) ==
      if crc(torn) % U32_LIMIT != |p| % U32_LIMIT then Failed(BadChecksum) else Payload(torn, p + U32(crc(p)))
  {
    hide U32, ReadU32;
    var tail, n := Record(crc, torn)[..4 + |torn|] + Record(crc, p), |torn|;
    U32RoundTrip(n);
    U32RoundTrip(|p|);
    assert tail[..4] == U32(n) && tail[4..4 + n] == torn;
    assert tail[4 + n..8 + n] == U32(|p|);
    assert tail[8 + n..] == p + U32(crc(p));
  }

  lemma PayloadAgain(crc: Checksum, p: Bytes)
    requires |p| <= MAX_PAYLOAD
    ensures ReadRecord(crc, p + U32(|p|)) == Eof <==> ReadU32((p + U32(|p|))[..4]) == |p|
  {
    hide U32, ReadU32;
    U32RoundTrip(|p|);
    if p == [] {
      assert (p + U32(|p|))[..4] == U32(|p|);
    }
  }

  // ----- the object -----

  lemma InTail(file: Bytes, p: nat, i: nat, j: nat)
    requires i <= j && p + j <= |file|
    ensures file[p..][i..j] == file[p + i..p + j] && file[p..][j..] == file[p + j..]
  {
  }

  class Wal {
    var file: Bytes
    var pos: nat
    const crc: Checksum

    constructor (file: Bytes, crc: Checksum)
      ensures this.file == file && this.crc == crc && pos == 0
    {
      this.file, this.crc, pos := file, crc, 0;
    }

    ghost predicate Valid()
      reads this
    {
      pos <= |file|
    }

    method WriteEntry(payload: Bytes)
      requires Valid()
      modifies this
      ensures Valid() && file == old(file) + Record(crc, payload) && pos == |file|
    {
      var buf := U32(|payload|) + payload + U32(crc(payload));
      file := file + buf;
      pos := |file|;
    }

    /** `io.ReadFull`: everything asked for, or nothing (end of file), or a part. */
    method ReadFull(n: nat) returns (buf: Bytes)
      requires Valid()
      modifies this`pos
      ensures Valid()
      ensures buf == if old(pos) + n <= |file| then file[old(pos)..old(pos) + n] else file[old(pos)..]
      ensures pos == old(pos) + |buf|
    {
      buf := if pos + n <= |file| then file[pos..pos + n] else file[pos..];
      pos := pos + |buf|;
    }

    method ReadEntry() returns (r: ReadResult)
      requires Valid()
      modifies this`pos
      ensures Valid() && r == ReadRecord(crc, file[old(pos)..])
      ensures r.Payload? ==> pos > old(pos) && r.rest == file[pos..]
    {
      hide ReadU32, U32;
      ghost var start := pos;
      ghost var buf := file[start..];
      var lengthBuf := ReadFull(4);
      if |lengthBuf| == 0 {
        return Eof;
      }
      if |lengthBuf| < 4 {
        return Failed(PartialLength);
      }
      InTail(file, start, 0, 4);
      var n := ReadU32(lengthBuf);
      if n > MAX_PAYLOAD {
        return Failed(TooLarge);
      }
      var payload := ReadFull(n);
      if |payload| == 0 && n > 0 {
        return Eof;
      }
      if |payload| < n {
        return Failed(PartialPayload);
      }
      InTail(file, start, 4, 4 + n);
      var checksumBuf := ReadFull(4);
      if |checksumBuf| == 0 {
        return Eof;
      }
      if |checksumBuf| < 4 {
        return Failed(PartialChecksum);
      }
      InTail(file, start, 4 + n, 8 + n);
      if ReadU32(checksumBuf) != crc(payload) % U32_LIMIT {
        return Failed(BadChecksum);
      }
      r := Payload(payload, file[pos..]);
    }

    method Clear()
      modifies this
      ensures Valid() && file == [] && pos == 0
    {
      file, pos := [], 0;
    }
  }
}
