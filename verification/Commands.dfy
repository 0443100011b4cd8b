/** The payloads of log records: the PUT and TRANSACTION commands, and rebuilding the memtable
    from a log (db/db.go, db/transaction.go). */
module Commands {
  import opened ByteStrings
  import opened Tables
  import opened WriteAheadLog

  const CMD_PUT: Bytes := [80, 85, 84]
  const CMD_TRANSACTION: Bytes := [84, 82, 65, 78, 83, 65, 67, 84, 73, 79, 78]

  datatype Decoded = Commands(cmds: seq<Entry>) | Malformed | UnknownCommand

  // ----- reading -----

  /** `readLengthPrefixedString`; the remaining length is compared as a 32-bit number. */
  function ReadString(buf: Bytes): (t: Option<Taken>)
    ensures t.Some? ==> |t.value.rest| < |buf|
  {
    if |buf| < 4 then None
    else
      var n := ReadU32(buf[..4]);
      if n > (|buf| - 4) % U32_LIMIT then None
      else Some(Taken(buf[4..4 + n], buf[4 + n..]))
  }

  datatype ReadCommand = ReadCommand(cmd: Entry, rest: Bytes)

  function ReadPair(buf: Bytes): (r: Option<ReadCommand>)
    ensures r.Some? ==> |r.value.rest| < |buf|
  {
    match ReadString(buf)
    case None => None
    case Some(k) =>
      match ReadString(k.rest)
      case None => None
      case Some(v) => Some(ReadCommand(Entry(k.value, v.value), v.rest))
  }

  /** The loop of `deserialiseTransactionCommand`, with n writes to go. */
  function ReadPairs(buf: Bytes, n: nat): Decoded {
    if n == 0 then (if buf == [] then Commands([]) else Malformed)
    else match ReadPair(buf)
      case None => Malformed
      case Some(p) =>
        match ReadPairs(p.rest, n - 1)
        case Commands(more) => Commands([p.cmd] + more)
        case other => other
  }

  function DecodePut(buf: Bytes): Decoded {
    match ReadPair(buf)
    case None => Malformed
    case Some(p) => if p.rest == [] then Commands([p.cmd]) else Malformed
  }

  function DecodeTransaction(buf: Bytes): Decoded {
    if |buf| < 4 then Malformed else ReadPairs(buf[4..], ReadU32(buf[..4]))
  }

  /** The command switch of `buildMemtableFromWal`. */
  function DecodeCommand(payload: Bytes): Decoded {
    match ReadString(payload)
    case None => Malformed
    case Some(t) =>
      if t.value == CMD_PUT then DecodePut(t.rest)
      else if t.value == CMD_TRANSACTION then DecodeTransaction(t.rest)
      else UnknownCommand
  }

  method ReadStringAt(buf: Bytes, offset: nat) returns (r: Option<Bytes>, next: nat)
    requires offset <= |buf|
    ensures r.Some? <==> ReadString(buf[offset..]).Some?
    ensures r.Some? ==> offset < next <= |buf| && ReadString(buf[offset..]).value == Taken(r.value, buf[next..])
  {
    hide ReadU32;
    next := offset;
    if |buf| - next < 4 {
      return None, next;
    }
    assert buf[offset..][..4] == buf[next..next + 4];
    var n := ReadU32(buf[next..next + 4]);
    next := next + 4;
    if n > (|buf| - next) % U32_LIMIT {
      return None, next;
    }
    r := Some(buf[next..next + n]);
    next := next + n;
    assert buf[offset..][4..4 + n] == r.value && buf[offset..][4 + n..] == buf[next..];
  }

  function PrependCmds(done: seq<Entry>, rest: Decoded): Decoded {
    match rest
    case Commands(more) => Commands(done + more)
    case other => other
  }

  lemma PrependCmdsStep(done: seq<Entry>, c: Entry, rest: Decoded)
    ensures PrependCmds(done + [c], rest) == PrependCmds(done, PrependCmds([c], rest))
    ensures PrependCmds([], rest) == rest
  {
    if rest.Commands? {
      assert (done + [c]) + rest.cmds == done + ([c] + rest.cmds) && [] + rest.cmds == rest.cmds;
    }
  }

  method DeserialiseTransaction(buf: Bytes) returns (r: Decoded)
    ensures r == DecodeTransaction(buf)
  {
    hide ReadString, ReadU32;
    if |buf| < 4 {
      return Malformed;
    }
    var n, offset, cmds := ReadU32(buf[..4]), 4, [];
    PrependCmdsStep([], Entry([], []), ReadPairs(buf[4..], n));
    for j := 0 to n
      invariant offset <= |buf|
      invariant DecodeTransaction(buf) == PrependCmds(cmds, ReadPairs(buf[offset..], n - j))
    {
      var key, value;
      key, offset := ReadStringAt(buf, offset);
      if key.None? {
        return Malformed;
      }
      value, offset := ReadStringAt(buf, offset);
      if value.None? {
        return Malformed;
      }
      PrependCmdsStep(cmds, Entry(key.value, value.value), ReadPairs(buf[offset..], n - j - 1));
      cmds := cmds + [Entry(key.value, value.value)];
    }
    if offset != |buf| {
      return Malformed;
    }
    assert buf[offset..] == [] && cmds + [] == cmds;
    r := Commands(cmds);
  }

  // ----- writing -----

  function EncodePair(c: Entry): Bytes {
    Framed(c.key) + Framed(c.value)
  }

  function EncodePairs(cmds: seq<Entry>): Bytes {
    if cmds == [] then [] else EncodePair(cmds[0]) + EncodePairs(cmds[1..])
  }

  function EncodePut(key: Bytes, value: Bytes): Bytes {
    Framed(CMD_PUT) + EncodePair(Entry(key, value))
  }

  function EncodeTransaction(cmds: seq<Entry>): Bytes {
    Framed(CMD_TRANSACTION) + (U32(|cmds|) + EncodePairs(cmds))
  }

  // ----- round trips -----

  /** Below 4 GiB in all, a framed string reads back whatever follows it. */
  lemma ReadFramed(s: Bytes, rest: Bytes)
    requires |s| + |rest| < U32_LIMIT
    ensures ReadString(Framed(s) + rest) == Some(Taken(s, rest))
  {
    hide U32, ReadU32;
    TakeFramed(s, rest);
    ReadStringIsTake(Framed(s) + rest);
  }

  lemma ReadStringIsTake(buf: Bytes)
    requires |buf| - 4 < U32_LIMIT
    ensures ReadString(buf) == Take(buf)
  {
    hide ReadU32;
  }

  /** Anything accepted is accepted by the plain reader too. */
  lemma ReadStringInverts(buf: Bytes)
    requires ReadString(buf).Some?
    ensures buf == Framed(ReadString(buf).value.value) + ReadString(buf).value.rest
  {
    hide U32;
    TakeInverts(buf);
  }

  lemma ReadPairBack(c: Entry, rest: Bytes)
    requires |EncodePair(c)| + |rest| < U32_LIMIT
    ensures ReadPair(EncodePair(c) + rest) == Some(ReadCommand(c, rest))
  {
    hide ReadString, U32;
    assert EncodePair(c) + rest == Framed(c.key) + (Framed(c.value) + rest);
    ReadFramed(c.key, Framed(c.value) + rest);
    ReadFramed(c.value, rest);
  }

  lemma ReadPairInverts(buf: Bytes)
    requires ReadPair(buf).Some?
    ensures buf == EncodePair(ReadPair(buf).value.cmd) + ReadPair(buf).value.rest
  {
    hide ReadString, Framed;
    var k := ReadString(buf).value;
    var v := ReadString(k.rest).value;
    ReadStringInverts(buf);
    ReadStringInverts(k.rest);
    assert Framed(k.value) + (Framed(v.value) + v.rest) == (Framed(k.value) + Framed(v.value)) + v.rest;
  }

  lemma {:induction false} ReadPairsBack(cmds: seq<Entry>)
    requires |EncodePairs(cmds)| < U32_LIMIT
    ensures ReadPairs(EncodePairs(cmds), |cmds|) == Commands(cmds)
  {
    hide ReadPair, EncodePair;
    if cmds != [] {
      ReadPairBack(cmds[0], EncodePairs(cmds[1..]));
      ReadPairsBack(cmds[1..]);
      assert [cmds[0]] + cmds[1..] == cmds;
    }
  }

  lemma {:induction false} ReadPairsInverts(buf: Bytes, n: nat)
    requires ReadPairs(buf, n).Commands?
    ensures |ReadPairs(buf, n).cmds| == n && EncodePairs(ReadPairs(buf, n).cmds) == buf
    decreases n
  {
    hide ReadPair, EncodePair;
    if n > 0 {
      var p := ReadPair(buf).value;
      ReadPairInverts(buf);
      ReadPairsInverts(p.rest, n - 1);
      var more := ReadPairs(p.rest, n - 1).cmds;
      assert ([p.cmd] + more)[1..] == more;
    }
  }

  lemma PutRoundTrip(key: Bytes, value: Bytes)
    requires |EncodePut(key, value)| < U32_LIMIT
    ensures DecodeCommand(EncodePut(key, value)) == Commands([Entry(key, value)])
  {
    hide ReadString, EncodePair, ReadPair;
    var c := Entry(key, value);
    ReadFramed(CMD_PUT, EncodePair(c));
    assert EncodePair(c) + [] == EncodePair(c);
    ReadPairBack(c, []);
  }

  lemma {:induction false} PairsCount(cmds: seq<Entry>)
    ensures |EncodePairs(cmds)| >= 8 * |cmds|
  {
    if cmds != [] {
      PairsCount(cmds[1..]);
    }
  }

  lemma TransactionRoundTrip(cmds: seq<Entry>)
    requires |EncodeTransaction(cmds)| < U32_LIMIT
    ensures DecodeCommand(EncodeTransaction(cmds)) == Commands(cmds)
  {
    hide ReadString, EncodePairs, ReadPairs, U32, ReadU32, Framed;
    var body := U32(|cmds|) + EncodePairs(cmds);
    ReadFramed(CMD_TRANSACTION, body);
    PairsCount(cmds);
    U32RoundTrip(|cmds|);
    assert body[..4] == U32(|cmds|) && body[4..] == EncodePairs(cmds);
    ReadPairsBack(cmds);
    assert CMD_TRANSACTION != CMD_PUT;
  }

  /** Nothing but an encoding of the commands it decodes to is accepted. */
  lemma AcceptedReencodes(payload: Bytes)
    requires DecodeCommand(payload).Commands?
    ensures var cmds := DecodeCommand(payload).cmds;
      (|cmds| == 1 && payload == EncodePut(cmds[0].key, cmds[0].value)) || payload == EncodeTransaction(cmds)
  {
    hide ReadString, EncodePairs, ReadPairs, EncodePair, ReadPair, U32, ReadU32, Framed;
    var t := ReadString(payload).value;
    ReadStringInverts(payload);
    if t.value == CMD_PUT {
      ReadPairInverts(t.rest);
      var c := ReadPair(t.rest).value.cmd;
      assert EncodePair(c) + [] == EncodePair(c);
    } else {
      ReadU32RoundTrip(t.rest[..4]);
      ReadPairsInverts(t.rest[4..], ReadU32(t.rest[..4]));
      assert t.rest == t.rest[..4] + t.rest[4..];
    }
  }

  // ----- a transaction is written in map order, which is arbitrary -----

  /** The entries of a map, each once, in some order. */
  ghost predicate Lists(cmds: seq<Entry>, m: Table) {
    && (forall i, j :: 0 <= i < j < |cmds| ==> cmds[i].key != cmds[j].key)
    && (forall i :: 0 <= i < |cmds| ==> cmds[i].key in m && m[cmds[i].key] == cmds[i].value)
    && |cmds| == |m|
  }

  lemma {:induction false} ListingReplays(cmds: seq<Entry>, m: Table)
    requires Lists(cmds, m)
    ensures ToTable(cmds) == m
  {
    if cmds == [] {
      assert m == map[];
    } else {
      var n := |cmds| - 1;
      var k := cmds[n].key;
      assert (m - {k}).Keys == m.Keys - {k};
      ListingReplays(cmds[..n], m - {k});
      assert (m - {k})[k := m[k]] == m;
    }
  }

  /** Whatever order the map is visited in, the record replays to the same memtable. */
  lemma OrderDoesNotMatter(a: seq<Entry>, b: seq<Entry>, writes: Table)
    requires Lists(a, writes) && Lists(b, writes)
    requires |EncodeTransaction(a)| < U32_LIMIT && |EncodeTransaction(b)| < U32_LIMIT
    ensures DecodeCommand(EncodeTransaction(a)).Commands? && DecodeCommand(EncodeTransaction(b)).Commands?
    ensures ToTable(DecodeCommand(EncodeTransaction(a)).cmds) ==
      ToTable(DecodeCommand(EncodeTransaction(b)).cmds) == writes
  {
    hide ToTable, EncodeTransaction, DecodeCommand;
    TransactionRoundTrip(a);
    TransactionRoundTrip(b);
    ListingReplays(a, writes);
    ListingReplays(b, writes);
  }

  lemma {:induction false} EncodePairsAppend(a: seq<Entry>, c: Entry)
    ensures EncodePairs(a + [c]) == EncodePairs(a) + EncodePair(c)
  {
    hide EncodePair;
    if a == [] {
      assert a + [c] == [c];
      assert EncodePairs([c][1..]) == [];
    } else {
      assert (a + [c])[1..] == a[1..] + [c];
      EncodePairsAppend(a[1..], c);
    }
  }

  method SerialiseTransaction(writes: Table) returns (buf: Bytes)
    ensures exists order :: Lists(order, writes) && buf == EncodeTransaction(order)
  {
    hide EncodePair, EncodePairs, Framed, U32;
    buf := Framed(CMD_TRANSACTION);
    buf := buf + U32(|writes|);
    ghost var pairs: Bytes := [];
    ghost var order: seq<Entry> := [];
    assert EncodePairs([]) == [] by { NoPairs(); }
    var left := writes.Keys;
    while left != {}
      invariant left <= writes.Keys && |order| + |left| == |writes|
      invariant forall i :: 0 <= i < |order| ==> order[i].key in writes && writes[order[i].key] == order[i].value
      invariant forall i :: 0 <= i < |order| ==> order[i].key !in left
      invariant forall i, j :: 0 <= i < j < |order| ==> order[i].key != order[j].key
      invariant pairs == EncodePairs(order)
      invariant buf == Framed(CMD_TRANSACTION) + U32(|writes|) + pairs
      decreases left
    {
      var key :| key in left;
      left := left - {key};
      EncodePairsAppend(order, Entry(key, writes[key]));
      order := order + [Entry(key, writes[key])];
      buf := buf + EncodePair(Entry(key, writes[key]));
      pairs := pairs + EncodePair(Entry(key, writes[key]));
    }
    assert Lists(order, writes) && buf == EncodeTransaction(order);
  }

  lemma NoPairs()
    ensures EncodePairs([]) == []
  {
  }

  // ----- rebuilding the memtable -----

  datatype Rebuilt = Rebuilt(table: Table) | Refused

  /** `buildMemtableFromWal` on the rest of the log. */
  function Replay(crc: Checksum, log: Bytes, table: Table): Rebuilt
    decreases |log|
  {
    match ReadRecord(crc, log)
    case Eof => Rebuilt(table)
    case Failed(_) => Refused
    case Payload(p, rest) =>
      match DecodeCommand(p)
      case Commands(cmds) => Replay(crc, rest, table + ToTable(cmds))
      case _ => Refused
  }

  /** What a list of payloads does to a memtable, when every one decodes. */
  function Effect(payloads: seq<Bytes>): Table {
    if payloads == [] then map[]
    else
      var d := DecodeCommand(payloads[0]);
      (if d.Commands? then ToTable(d.cmds) else map[]) + Effect(payloads[1..])
  }

  predicate AllDecode(payloads: seq<Bytes>) {
    forall i :: 0 <= i < |payloads| ==> DecodeCommand(payloads[i]).Commands?
  }

  /** Replaying a log followed by anything applies its records in order and goes on. */
  lemma {:induction false} ReplayWholeRecords(crc: Checksum, payloads: seq<Bytes>, tail: Bytes, table: Table)
    requires Readable(payloads) && AllDecode(payloads)
    ensures Replay(crc, Log(crc, payloads) + tail, table) == Replay(crc, tail, table + Effect(payloads))
  {
    hide Record, ReadRecord, DecodeCommand, ToTable;
    if payloads == [] {
      assert Log(crc, payloads) + tail == tail;
      assert table + Effect(payloads) == table;
    } else {
      var p, rest := payloads[0], Log(crc, payloads[1..]) + tail;
      assert Log(crc, payloads) + tail == Record(crc, p) + rest;
      RecordReadIff(crc, p, rest);
      var t := ToTable(DecodeCommand(p).cmds);
      ReplayWholeRecords(crc, payloads[1..], tail, table + t);
      PlusAssociates(table, t, Effect(payloads[1..]));
    }
  }

  lemma ReplayLog(crc: Checksum, payloads: seq<Bytes>)
    requires Readable(payloads) && AllDecode(payloads)
    ensures Replay(crc, Log(crc, payloads), map[]) == Rebuilt(Effect(payloads))
  {
    hide Effect, Log;
    ReplayWholeRecords(crc, payloads, [], map[]);
    assert Log(crc, payloads) + [] == Log(crc, payloads);
    assert map[] + Effect(payloads) == Effect(payloads);
    assert Replay(crc, [], Effect(payloads)) == Rebuilt(Effect(payloads));
  }

  /** A log torn inside its last record rebuilds everything before it or is refused; it is
      never rebuilt with part of the torn command. */
  lemma ReplayTorn(crc: Checksum, payloads: seq<Bytes>, p: Bytes, n: nat)
    requires Readable(payloads) && AllDecode(payloads)
    requires |p| <= MAX_PAYLOAD && n < |Record(crc, p)|
    ensures Replay(crc, Log(crc, payloads) + Record(crc, p)[..n], map[]) ==
      if TornOutcome(p, n).None? then Rebuilt(Effect(payloads)) else Refused
  {
    hide Effect, Log, Record, DecodeCommand, ToTable;
    ReplayWholeRecords(crc, payloads, Record(crc, p)[..n], map[]);
    assert map[] + Effect(payloads) == Effect(payloads);
    TornRecord(crc, p, n);
  }

  lemma {:induction false} EffectAppend(payloads: seq<Bytes>, p: Bytes)
    requires DecodeCommand(p).Commands?
    ensures Effect(payloads + [p]) == Effect(payloads) + ToTable(DecodeCommand(p).cmds)
  {
    hide DecodeCommand, ToTable;
    var t := ToTable(DecodeCommand(p).cmds);
    if payloads == [] {
      assert payloads + [p] == [p] && [p][1..] == [];
      assert t + map[] == t == map[] + t;
    } else {
      assert (payloads + [p])[1..] == payloads[1..] + [p];
      EffectAppend(payloads[1..], p);
      var d := DecodeCommand(payloads[0]);
      PlusAssociates(if d.Commands? then ToTable(d.cmds) else map[], Effect(payloads[1..]), t);
    }
  }

  /** No command survives behind a torn record: every PUT and every TRANSACTION starts with the
      length of its name, which is shorter than itself. */
  lemma NextCommandIsLost(crc: Checksum, payloads: seq<Bytes>, torn: Bytes, p: Bytes)
    requires Readable(payloads) && |torn| <= MAX_PAYLOAD && |p| <= MAX_PAYLOAD && DecodeCommand(p).Commands?
    ensures ReadLog(crc, Log(crc, payloads) + (Record(crc, torn)[..4] + Record(crc, p))) != Reading(payloads + [p], None)
    ensures ReadLog(crc, Log(crc, payloads) + (Record(crc, torn)[..4 + |torn|] + Record(crc, p))) != Reading(payloads + [p], None)
  {
    hide ReadLog, Log, DecodeCommand, U32, ReadU32, Record;
    TornLengthIff(crc, payloads, torn, p);
    TornPayloadIff(crc, payloads, torn, p);
    CommandStart(p);
    U32RoundTrip(|p|);
    assert (U32(|p|) + p)[..|p|][..4] == U32(|p|);
    assert (p + U32(|p|))[..4] == p[..4];
  }

  lemma CommandStart(p: Bytes)
    requires DecodeCommand(p).Commands?
    ensures |p| > 11 && (ReadU32(p[..4]) == 3 || ReadU32(p[..4]) == 11)
  {
    hide DecodeCommand, EncodePairs, EncodePair, U32, ReadU32;
    AcceptedReencodes(p);
    U32RoundTrip(3);
    U32RoundTrip(11);
    var cmds := DecodeCommand(p).cmds;
    if p == EncodeTransaction(cmds) {
      assert p[..4] == U32(11);
    } else {
      PairLength(cmds[0]);
      assert p[..4] == U32(3);
    }
  }

  lemma PairLength(e: Entry)
    ensures |EncodePair(e)| >= 8
  {
  }

  // ----- a start on a log with a cut in the middle -----

  lemma CommandName(p: Bytes)
    requires DecodeCommand(p).Commands?
    ensures (|p| >= 7 && p[..4] == U32(3) && p[4..7] == CMD_PUT) || (|p| >= 15 && p[..4] == U32(11) && p[4..15] == CMD_TRANSACTION)
  {
    hide DecodeCommand, EncodePairs, EncodePair, U32, ReadU32;
    AcceptedReencodes(p);
  }

  lemma NamesAreNoCommands()
    ensures !DecodeCommand(CMD_PUT).Commands? && !DecodeCommand(CMD_TRANSACTION).Commands?
  {
    assert CMD_TRANSACTION[..4] == [84, 82, 65, 78];
  }

  lemma LogStart(crc: Checksum, later: seq<Bytes>)
    requires later != []
    ensures |Log(crc, later)| >= |later[0]| + 8 && Log(crc, later)[..4] == U32(|later[0]|)
    ensures Log(crc, later)[4..] == later[0] + (U32(crc(later[0])) + Log(crc, later[1..]))
  {
    hide U32;
    assert Log(crc, later) == Record(crc, later[0]) + Log(crc, later[1..]);
  }

  lemma ReadBehindLength(crc: Checksum, torn: Bytes, more: Bytes)
    requires |torn| <= MAX_PAYLOAD && more != []
    ensures var r := ReadRecord(crc, Record(crc, torn)[..4] + more);
      && (r.Eof? <==> |more| == |torn|)
      && (r.Payload? ==> |more| > |torn| && r.payload == more[..|torn|])
  {
    hide U32, ReadU32;
    var tail, n := Record(crc, torn)[..4] + more, |torn|;
    U32RoundTrip(n);
    assert tail[..4] == U32(n);
    if |more| >= n {
      assert tail[4..4 + n] == more[..n];
    }
  }

  /** The first bytes of a log are no command. */
  lemma FirstBytesNoCommand(crc: Checksum, later: seq<Bytes>, n: nat)
    requires later != [] && |later[0]| <= MAX_PAYLOAD && DecodeCommand(later[0]).Commands? && n < |Log(crc, later)|
    ensures !DecodeCommand(Log(crc, later)[..n]).Commands?
  {
    hide Log, DecodeCommand, U32, ReadU32;
    LogStart(crc, later);
    U32RoundTrip(|later[0]|);
    CommandStart(later[0]);
    var q := Log(crc, later)[..n];
    if n >= 4 {
      assert q[..4] == Log(crc, later)[..4];
    }
    if DecodeCommand(q).Commands? {
      CommandStart(q);
    }
  }

  /** Whatever commands were logged behind a torn length: the next start is refused, unless they
      are together as long as the payload torn off. Then it succeeds with all of them lost. */
  lemma StartBehindLength(crc: Checksum, payloads: seq<Bytes>, torn: Bytes, later: seq<Bytes>)
    requires Readable(payloads) && AllDecode(payloads) && |torn| <= MAX_PAYLOAD
    requires later != [] && Readable(later) && AllDecode(later)
    ensures Replay(crc, Log(crc, payloads) + (Record(crc, torn)[..4] + Log(crc, later)), map[]) ==
      if |Log(crc, later)| == |torn| then Rebuilt(Effect(payloads)) else Refused
  {
    hide Log, Effect, DecodeCommand, ToTable, ReadRecord, Record;
    var more := Log(crc, later);
    ReplayWholeRecords(crc, payloads, Record(crc, torn)[..4] + more, map[]);
    assert map[] + Effect(payloads) == Effect(payloads);
    LogStart(crc, later);
    ReadBehindLength(crc, torn, more);
    if |torn| < |more| {
      FirstBytesNoCommand(crc, later, |torn|);
    }
  }

  /** Whatever commands were logged behind a torn payload, the next start is refused. */
  lemma StartBehindPayload(crc: Checksum, payloads: seq<Bytes>, torn: Bytes, later: seq<Bytes>)
    requires Readable(payloads) && AllDecode(payloads) && |torn| <= MAX_PAYLOAD
    requires later != [] && Readable(later) && AllDecode(later)
    ensures Replay(crc, Log(crc, payloads) + (Record(crc, torn)[..4 + |torn|] + Log(crc, later)), map[]) == Refused
  {
    hide Log, Effect, DecodeCommand, U32, ReadU32, ToTable, ReadRecord;
    var tail, n := Record(crc, torn)[..4 + |torn|] + Log(crc, later), |torn|;
    ReplayWholeRecords(crc, payloads, tail, map[]);
    LogStart(crc, later);
    ReadBehindPayload(crc, torn, later);
    var r := ReadRecord(crc, tail);
    if r.Payload? && DecodeCommand(torn).Commands? {
      var table: Table := map[] + Effect(payloads) + ToTable(DecodeCommand(torn).cmds);
      Misaligned(crc, later[0], U32(crc(later[0])) + Log(crc, later[1..]), table);
    }
  }

  lemma ReadBehindPayload(crc: Checksum, torn: Bytes, later: seq<Bytes>)
    requires |torn| <= MAX_PAYLOAD && later != []
    ensures var r := ReadRecord(crc, Record(crc, torn)[..4 + |torn|] + Log(crc, later));
      r.Failed? || r == Payload(torn, later[0] + (U32(crc(later[0])) + Log(crc, later[1..])))
  {
    hide Log, U32, ReadU32;
    LogStart(crc, later);
    var tail, n, more := Record(crc, torn)[..4 + |torn|] + Log(crc, later), |torn|, Log(crc, later);
    U32RoundTrip(n);
    assert tail[..4] == U32(n) && tail[4..4 + n] == torn;
    assert tail[4 + n..8 + n] == more[..4] && tail[8 + n..] == more[4..];
  }

  /** Read from its first byte, a command is a record whose payload is its name. */
  lemma Misaligned(crc: Checksum, p: Bytes, rest: Bytes, table: Table)
    requires DecodeCommand(p).Commands? && |rest| >= 4
    ensures Replay(crc, p + rest, table) == Refused
  {
    hide DecodeCommand, U32, ReadU32, ToTable;
    CommandName(p);
    NamesAreNoCommands();
    CommandStart(p);
    U32RoundTrip(3);
    U32RoundTrip(11);
    var buf := p + rest;
    assert buf[..4] == p[..4];
    if p[..4] == U32(3) {
      assert buf[4..7] == p[4..7];
    } else {
      assert buf[4..15] == p[4..15];
    }
  }
}
