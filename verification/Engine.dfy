/** The engine as a state machine: the log, the memtable, the SSTable list, the manifest and
    one background compaction, each locked region of the code one step, with a crash between
    any two steps (db/db.go, db/transaction.go, sstable/sstable.go, sstable/compaction.go). */
module Engine {
  import opened ByteStrings
  import opened Tables
  import opened TableFormat
  import opened TableReaders
  import opened TableLookup
  import opened WriteAheadLog
  import opened Commands
  import opened MemoryTable
  import opened Store
  import opened Compaction

  /** `storesOffsets` and `startsEmpty` are false in the code as written: the swap forgets the
      offsets, and a new file is opened for appending. */
  datatype Config = Config(crc: Checksum, blockLength: int, storesOffsets: bool, startsEmpty: bool)

  /** Where the one writer (under the lock of the database) stands. */
  datatype Writer =
    | Idle
    | Logged(cmds: seq<Entry>)
    | Applied
    | Filling(id: FileId, stream: seq<Entry>, rest: Bytes)
    | Published
    | Cleared

  /** Where the background compaction stands. Testing and setting `compacting` is one step. */
  datatype Compactor =
    | Resting
    | Marked
    | Snapped(snapshot: seq<FileId>)
    | MergedInto(snapshot: seq<FileId>, stream: seq<Entry>)
    | Compacting(snapshot: seq<FileId>, stream: seq<Entry>, id: FileId, rest: Bytes)
    | Deleting(todo: seq<FileId>)

  /** `wal`, `disk` and `saved` survive a crash; the rest is memory. */
  datatype Db = Db(
    wal: Bytes, disk: Disk, saved: Manifest,
    mem: Table, st: State, writer: Writer, compactor: Compactor)

  datatype Step =
    | LogPut(key: Bytes, value: Bytes)
    | LogCommit(order: seq<Entry>)
    | Apply
    | NewTable
    | FillSome(n: nat)
    | Publish
    | ClearMemtable
    | ClearLog
    | StartCompaction
    | TakeSnapshot
    | MergeFiles
    | CreateCompacted
    | CompactSome(n: nat)
    | SwapFiles
    | DeleteOne
    | EndCompaction
    | Crash

  // ----- what the code does -----

  predicate DistinctKeys(cmds: seq<Entry>) {
    forall i, j :: 0 <= i < j < |cmds| ==> cmds[i].key != cmds[j].key
  }

  ghost predicate Enabled(db: Db, step: Step) {
    match step
    case LogPut(_, _) => db.writer.Idle?
    case LogCommit(order) => db.writer.Idle? && DistinctKeys(order)
    case Apply => db.writer.Logged?
    case NewTable => db.writer.Applied?
    case FillSome(n) => db.writer.Filling? && 0 < n <= |db.writer.rest|
    case Publish => db.writer.Filling? && db.writer.rest == []
    case ClearMemtable => db.writer.Published?
    case ClearLog => db.writer.Cleared?
    case StartCompaction => db.writer.Published? && db.compactor.Resting? && |db.st.files| >= 4
    case TakeSnapshot => db.compactor.Marked?
    case MergeFiles => db.compactor.Snapped? && !MergePanics(db.disk, db.compactor.snapshot)
    case CreateCompacted => db.compactor.MergedInto?
    case CompactSome(n) => db.compactor.Compacting? && 0 < n <= |db.compactor.rest|
    case SwapFiles => db.compactor.Compacting? && db.compactor.rest == [] && db.st.Readable()
    case DeleteOne => db.compactor.Deleting? && db.compactor.todo != []
    case EndCompaction => db.compactor.Deleting? && db.compactor.todo == []
    case Crash => true
  }

  function TakeId(st: State): State {
    st.(manifest := st.manifest.(nextFileId := st.manifest.nextFileId + 1))
  }

  /** Restarting on what survived: the memtable from the log, the list from the manifest. */
  function Recover(c: Config, db: Db): Option<Db> {
    match Replay(c.crc, db.wal, map[])
    case Refused => None
    case Rebuilt(table) =>
      match OpenUpTo(db.disk, db.saved, |db.saved.fileNames|)
      case Ok(st) => Some(Db(db.wal, db.disk, db.saved, table, st, Idle, Resting))
      case _ => None
  }

  ghost function Next(c: Config, db: Db, step: Step): Db
    requires Enabled(db, step)
  {
    match step
    case LogPut(key, value) =>
      db.(wal := db.wal + Record(c.crc, EncodePut(key, value)), writer := Logged([Entry(key, value)]))
    case LogCommit(order) =>
      db.(wal := db.wal + Record(c.crc, EncodeTransaction(order)), writer := Logged(order))
    case Apply =>
      var mem := db.mem + ToTable(db.writer.cmds);
      db.(mem := mem, writer := if TotalSize(mem) >= SIZE_LIMIT then Applied else Idle)
    case NewTable =>
      var id, s := db.st.manifest.nextFileId, Ascend(db.mem);
      db.(st := TakeId(db.st), disk := Touch(db.disk, id, c.startsEmpty), writer := Filling(id, s, FileBytes(s, c.blockLength)))
    case FillSome(n) =>
      var w := db.writer;
      db.(disk := db.disk[w.id := Contents(db.disk, w.id) + w.rest[..n]], writer := w.(rest := w.rest[n..]))
    case Publish =>
      var w := db.writer;
      var st := AddFile(db.st, w.id, IndexFor(Blocks(w.stream, c.blockLength)), |Encode(w.stream)|);
      db.(st := st, saved := st.manifest, writer := Published)
    case ClearMemtable => db.(mem := map[], writer := Cleared)
    case ClearLog => db.(wal := [], writer := Idle)
    case StartCompaction => db.(compactor := Marked)
    case TakeSnapshot => db.(compactor := Snapped(db.st.files))
    case MergeFiles =>
      db.(compactor := MergedInto(db.compactor.snapshot, MergedEntries(db.disk, db.compactor.snapshot)))
    case CreateCompacted =>
      var k, id := db.compactor, db.st.manifest.nextFileId;
      db.(st := TakeId(db.st), disk := Touch(db.disk, id, c.startsEmpty),
          compactor := Compacting(k.snapshot, k.stream, id, FileBytes(k.stream, c.blockLength)))
    case CompactSome(n) =>
      var k := db.compactor;
      db.(disk := db.disk[k.id := Contents(db.disk, k.id) + k.rest[..n]], compactor := k.(rest := k.rest[n..]))
    case SwapFiles =>
      var k := db.compactor;
      var st := Swap(db.st, k.id, k.snapshot, IndexFor(Blocks(k.stream, c.blockLength)), |Encode(k.stream)|, c.storesOffsets);
      db.(st := st, saved := st.manifest, compactor := Deleting(k.snapshot))
    case DeleteOne =>
      db.(disk := db.disk - {db.compactor.todo[0]}, compactor := Deleting(db.compactor.todo[1..]))
    case EndCompaction => db.(compactor := Resting)
    case Crash => if Recover(c, db).Some? then Recover(c, db).value else db
  }

  // ----- reads -----

  /** `DB.Get`. */
  function DbGet(db: Db, key: Bytes, slack: nat): Outcome<Bytes>
    requires db.st.Readable()
  {
    if key in db.mem then Ok(db.mem[key]) else GetUpTo(db.disk, db.st, |db.st.files|, key, slack)
  }

  // ----- runs -----

  /** What a run has done so far: the payloads in the log, the stream behind each listed file,
      the plain map of all logged writes and of those already applied, whether a swap has left
      the offsets behind, the file numbers issued, and how many before the last start. */
  datatype History = History(payloads: seq<Bytes>, streams: seq<seq<Entry>>, written: Table, shown: Table, stale: bool,
                             issued: seq<FileId>, since: nat)

  ghost function Recall(c: Config, db: Db, h: History, step: Step): History
    requires Enabled(db, step)
  {
    match step
    case LogPut(key, value) =>
      h.(payloads := h.payloads + [EncodePut(key, value)], written := h.written[key := value])
    case LogCommit(order) =>
      h.(payloads := h.payloads + [EncodeTransaction(order)], written := h.written + ToTable(order))
    case Apply => h.(shown := h.written)
    case NewTable => h.(issued := h.issued + [db.st.manifest.nextFileId])
    case CreateCompacted => h.(issued := h.issued + [db.st.manifest.nextFileId])
    case Publish => h.(streams := h.streams + [db.writer.stream])
    case ClearLog => h.(payloads := [])
    case SwapFiles =>
      var n := |db.compactor.snapshot|;
      if n <= |h.streams| then h.(streams := AfterSwap(h.streams, n), stale := !c.storesOffsets) else h
    case Crash => h.(stale := false, shown := h.written, since := |h.issued|)
    case _ => h
  }

  /** What the callers and the file system have to grant, each checked before the step: keys
      are not empty, a record is within the reader's limit, a file's data fits its 32-bit
      footer, and, where new files do not start empty, a new file's name is not left over on
      disk from before a crash. */
  ghost predicate Granted(c: Config, db: Db, step: Step) {
    match step
    case LogPut(key, value) => key != [] && |EncodePut(key, value)| <= MAX_PAYLOAD
    case LogCommit(order) => NoEmptyKey(order) && |EncodeTransaction(order)| <= MAX_PAYLOAD
    case NewTable => NewNameUsable(c, db) && |Encode(Ascend(db.mem))| < U32_LIMIT
    case CreateCompacted =>
      db.compactor.MergedInto? && NewNameUsable(c, db) && |Encode(db.compactor.stream)| < U32_LIMIT
    case _ => true
  }

  ghost predicate NewNameUsable(c: Config, db: Db) {
    c.startsEmpty || db.st.manifest.nextFileId !in db.disk
  }

  const EMPTY_DB := Db([], map[], Manifest(0, []), map[], State([], [], [], Manifest(0, [])), Idle, Resting)

  const NO_HISTORY := History([], [], map[], map[], false, [], 0)

  /** A run from the empty database through the given steps ends in this state. */
  ghost predicate Runs(c: Config, steps: seq<Step>, db: Db, h: History)
    decreases |steps|
  {
    if steps == [] then db == EMPTY_DB && h == NO_HISTORY
    else exists db0, h0 :: RunsTo(c, steps, db0, h0, db, h)
  }

  ghost predicate RunsTo(c: Config, steps: seq<Step>, db0: Db, h0: History, db: Db, h: History)
    requires steps != []
    decreases |steps|, 0
  {
    var n := |steps| - 1;
    && Runs(c, steps[..n], db0, h0)
    && Enabled(db0, steps[n]) && Granted(c, db0, steps[n])
    && db == Next(c, db0, steps[n]) && h == Recall(c, db0, h0, steps[n])
  }

  // ----- the invariant -----

  ghost predicate LogOk(c: Config, db: Db, h: History) {
    && db.wal == Log(c.crc, h.payloads) && Readable(h.payloads) && AllDecode(h.payloads)
    && [] !in h.written
  }

  /** The listed files, their indexes and the manifest, in memory and saved, agree entry by
      entry; a listed file's number is below the next one even after a crash. */
  ghost predicate FilesOk(c: Config, db: Db, h: History) {
    && Backed(db.disk, db.st, h.streams, c.blockLength)
    && Distinct(db.st.files)
    && db.saved.fileNames == db.st.files
    && db.saved.nextFileId <= db.st.manifest.nextFileId
    && forall f :: f in db.st.files ==> f < db.saved.nextFileId
  }

  /** A file being written holds what has been written of it and is not listed yet. */
  ghost predicate Pending(c: Config, disk: Disk, st: State, id: FileId, s: seq<Entry>, rest: Bytes) {
    && Storable(s) && id in disk && disk[id] + rest == FileBytes(s, c.blockLength)
    && id !in st.files && id < st.manifest.nextFileId
  }

  ghost predicate WriterOk(c: Config, db: Db) {
    db.writer.Filling? ==>
      Pending(c, db.disk, db.st, db.writer.id, db.writer.stream, db.writer.rest) && db.writer.stream == Ascend(db.mem)
  }

  ghost predicate SnapshotOk(db: Db, snapshot: seq<FileId>) {
    IsPrefix(snapshot, db.st.files) && snapshot != []
  }

  ghost predicate CompactorOk(c: Config, db: Db, h: History)
    requires |h.streams| == |db.st.files|
  {
    match db.compactor
    case Resting => true
    case Marked => db.st.files != []
    case Snapped(snapshot) => SnapshotOk(db, snapshot)
    case MergedInto(snapshot, s) => SnapshotOk(db, snapshot) && s == CompactedStream(h.streams, |snapshot|)
    case Compacting(snapshot, s, id, rest) =>
      && SnapshotOk(db, snapshot) && s == CompactedStream(h.streams, |snapshot|)
      && Pending(c, db.disk, db.st, id, s, rest)
    case Deleting(todo) => forall f :: f in todo ==> f !in db.st.files && f < db.st.manifest.nextFileId
  }

  /** The writer's new file is not the compaction's, nor one it is about to delete. */
  ghost predicate Apart(db: Db) {
    && (db.writer.Filling? && db.compactor.Compacting? ==> db.writer.id != db.compactor.id)
    && (db.writer.Filling? && db.compactor.Deleting? ==> db.writer.id !in db.compactor.todo)
  }

  /** Files, then log, make up all logged writes; the memtable mirrors the log except between
      the log write and the memtable update, and between the two clears. Files and memtable
      show the applied writes, which are all but a command just logged. */
  ghost predicate ViewOk(db: Db, h: History) {
    && MergedView(h.streams) + Effect(h.payloads) == h.written
    && match db.writer
       case Logged(cmds) =>
         && db.mem + ToTable(cmds) == Effect(h.payloads)
         && MergedView(h.streams) + db.mem == h.shown && h.shown + ToTable(cmds) == h.written
       case Published => db.mem == Effect(h.payloads) && MergedView(h.streams) == h.written == h.shown
       case Cleared => db.mem == map[] && MergedView(h.streams) == h.written == h.shown
       case _ => db.mem == Effect(h.payloads) && h.shown == h.written
  }

  ghost predicate OffsetsOk(c: Config, db: Db, h: History) {
    && (c.storesOffsets ==> !h.stale)
    && (!h.stale ==> OffsetsAligned(db.st, h.streams) && |db.st.indexOffsets| == |db.st.files|)
  }

  ghost predicate Inv(c: Config, db: Db, h: History) {
    && LogOk(c, db, h) && FilesOk(c, db, h) && WriterOk(c, db) && CompactorOk(c, db, h) && Apart(db)
    && ViewOk(db, h) && OffsetsOk(c, db, h)
  }
}
