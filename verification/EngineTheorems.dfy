/** What holds in every state of every run of the engine: reads agree with a plain map of all
    writes, a crash between any two steps loses nothing and invents nothing, compaction cannot
    be observed, and file names stay in order. */
module EngineTheorems {
  import opened ByteStrings
  import opened Tables
  import opened TableFormat
  import opened TableReaders
  import opened TableLookup
  import opened TableScans
  import opened StaleOffsets
  import opened StaleReads
  import opened WriteAheadLog
  import opened Commands
  import opened Store
  import opened Compaction
  import opened Engine
  import opened EngineSteps

  // ----- reads -----

  lemma {:induction false} KeyInSomeFile(streams: seq<seq<Entry>>, key: Bytes)
    ensures key in MergedView(streams) <==> exists i :: 0 <= i < |streams| && key in ToTable(streams[i])
  {
    hide ToTable, MergedView;
    if streams == [] {
      EmptyView(streams);
    } else {
      var n := |streams|;
      assert streams[..n] == streams;
      MergedViewInit(streams, n);
      KeyInSomeFile(streams[..n - 1], key);
      if exists i :: 0 <= i < n && key in ToTable(streams[i]) {
        var i :| 0 <= i < n && key in ToTable(streams[i]);
        assert i < n - 1 ==> streams[..n - 1][i] == streams[i];
      }
      if key in MergedView(streams[..n - 1]) {
        var i :| 0 <= i < n - 1 && key in ToTable(streams[..n - 1][i]);
        assert key in ToTable(streams[i]);
      }
    }
  }

  /** A key whose merged value is non-empty, or that no file holds, is not blanked. */
  lemma UsuallyNotBlanked(streams: seq<seq<Entry>>, key: Bytes)
    ensures key !in MergedView(streams) || MergedView(streams)[key] != [] ==> NotBlanked(streams, key)
  {
    hide ToTable, MergedView;
    KeyInSomeFile(streams, key);
  }

  /** What a read has to work with in any state. */
  lemma ReadFacts(c: Config, steps: seq<Step>, db: Db, h: History)
    requires Runs(c, steps, db, h)
    ensures Backed(db.disk, db.st, h.streams, c.blockLength) && db.st.Readable() && |db.st.files| == |h.streams|
    ensures MergedView(h.streams) + db.mem == h.shown
    ensures !h.stale ==> OffsetsAligned(db.st, h.streams)
    ensures c.storesOffsets ==> !h.stale
  {
    hide Runs, LogOk, WriterOk, CompactorOk, Apart, Backed, MergedView, Effect, OffsetsAligned, Distinct;
    RunsKeep(c, steps, db, h);
    BackedShape(db.disk, db.st, h.streams, c.blockLength);
    if db.writer.Published? {
      CoveredTwice(MergedView(h.streams), Effect(h.payloads));
    }
    assert MergedView(h.streams) + map[] == MergedView(h.streams);
  }

  lemma CoveredTwice(a: Table, b: Table)
    requires a + b == a
    ensures forall k :: k in b ==> k in a && a[k] == b[k]
  {
    forall k | k in b
      ensures k in a && a[k] == b[k]
    {
      assert (a + b)[k] == b[k];
    }
  }

  /** The map the reads show is the map of all logged writes, except between the log record of
      a command and its update of the memtable, when it is that map before the command. */
  lemma ShownIsWrittenBut(c: Config, steps: seq<Step>, db: Db, h: History)
    requires Runs(c, steps, db, h)
    ensures !db.writer.Logged? ==> h.shown == h.written
    ensures db.writer.Logged? ==> h.shown + ToTable(db.writer.cmds) == h.written
  {
    hide Runs, LogOk, WriterOk, CompactorOk, Apart, Backed, MergedView, Effect, FilesOk, OffsetsOk, ToTable;
    RunsKeep(c, steps, db, h);
  }

  lemma LookupLayers(low: Table, top: Table, key: Bytes)
    ensures Lookup(low + top, key) == if key in top then top[key] else Lookup(low, key)
  {
  }

  /** With the exact block length, in every state of every run whose offsets are not left behind,
      whatever a flush and a background compaction are doing, `Get` returns what the plain map
      of all applied writes holds, if and only if the key is in the memtable or its newest value
      on disk does not blank an older one. Where the swap stores the offsets that is every
      state. */
  lemma GetIsMapLookupIff(c: Config, steps: seq<Step>, db: Db, h: History, key: Bytes)
    requires Runs(c, steps, db, h) && (c.storesOffsets || !h.stale)
    ensures db.st.Readable()
    ensures DbGet(db, key, 0) == Ok(Lookup(h.shown, key)) <==> key in db.mem || NotBlanked(h.streams, key)
  {
    hide Runs, Backed, MergedView, OffsetsAligned, GetUpTo, NotBlanked, Lookup;
    ReadFacts(c, steps, db, h);
    LookupLayers(MergedView(h.streams), db.mem, key);
    ExactGetIff(db.disk, db.st, h.streams, c.blockLength, key);
    assert key in db.mem ==> Lookup(h.shown, key) == db.mem[key];
  }

  /** In particular for every key never written or last written with a non-empty value. */
  lemma GetIsMapLookup(c: Config, steps: seq<Step>, db: Db, h: History, key: Bytes)
    requires Runs(c, steps, db, h) && (c.storesOffsets || !h.stale)
    requires key !in h.shown || h.shown[key] != []
    ensures db.st.Readable() && DbGet(db, key, 0) == Ok(Lookup(h.shown, key))
  {
    hide Runs, Backed, MergedView, OffsetsAligned, DbGet, NotBlanked, Lookup;
    ReadFacts(c, steps, db, h);
    GetIsMapLookupIff(c, steps, db, h, key);
    UsuallyNotBlanked(h.streams, key);
  }

  /** As written, as long as no compaction has finished since the last start, `Get` returns
      that value if and only if, besides, no file that spans the key without holding it is
      reached before a file that answers. */
  lemma GetIsMapLookupAsWrittenIff(c: Config, steps: seq<Step>, db: Db, h: History, key: Bytes)
    requires Runs(c, steps, db, h) && !h.stale
    ensures db.st.Readable()
    ensures DbGet(db, key, SLACK_AS_WRITTEN) == Ok(Lookup(h.shown, key))
      <==> (key in db.mem || (NotBlanked(h.streams, key)
        && forall i :: 0 <= i < |h.streams| && Trap(h.streams, i, key) ==> Shielded(h.streams, |h.streams|, i, key)))
  {
    hide Runs, Backed, MergedView, OffsetsAligned, GetUpTo, NotBlanked, Lookup, Trap, Shielded;
    ReadFacts(c, steps, db, h);
    LookupLayers(MergedView(h.streams), db.mem, key);
    GetAsWrittenIff(db.disk, db.st, h.streams, c.blockLength, key);
    assert key in db.mem ==> Lookup(h.shown, key) == db.mem[key];
  }

  /** In every state of every run, also after a swap that left the offsets behind: what a listed
      file answers for any key, given the end the reader has for it. */
  lemma ListedFileGet(c: Config, steps: seq<Step>, db: Db, h: History, i: nat, key: Bytes, slack: nat)
    requires Runs(c, steps, db, h) && i < |h.streams| && slack <= 1
    ensures db.st.Readable() && |db.st.files| == |h.streams|
    ensures FileGet(Contents(db.disk, db.st.files[i]), db.st.indexBlocks[i], db.st.indexOffsets[i], key, slack) ==
      Answer(h.streams[i], c.blockLength, db.st.indexOffsets[i], key, slack)
  {
    hide Runs, Backed, FileGet, Answer, Contents;
    ReadFacts(c, steps, db, h);
    AnyEndBacked(db.disk, db.st, h.streams, c.blockLength, i, key, slack);
  }

  /** In every state of every run, of any configuration: exactly when `Get` returns which value. */
  lemma GetInAnyState(c: Config, steps: seq<Step>, db: Db, h: History, key: Bytes, slack: nat, v: Bytes)
    requires Runs(c, steps, db, h) && slack <= 1
    ensures db.st.Readable() && Ends(db.st.indexOffsets, h.streams)
    ensures DbGet(db, key, slack) == Ok(v) <==>
      if key in db.mem then v == db.mem[key]
      else Finds(h.streams, db.st.indexOffsets, c.blockLength, |h.streams|, key, slack, v)
  {
    hide Runs, Backed, GetUpTo, Finds, MergedView;
    ReadFacts(c, steps, db, h);
    GetFindsIff(db.disk, db.st, h.streams, c.blockLength, |h.streams|, key, slack, v);
  }

  /** So as written, also after such a swap, `Get` is the lookup in the plain map of applied
      writes if and only if the key is in the memtable or the search comes to that value; it
      lies, if and only if it comes to another one. */
  lemma GetAsWrittenInAnyStateIff(c: Config, steps: seq<Step>, db: Db, h: History, key: Bytes)
    requires Runs(c, steps, db, h)
    ensures db.st.Readable() && Ends(db.st.indexOffsets, h.streams)
    ensures DbGet(db, key, SLACK_AS_WRITTEN) == Ok(Lookup(h.shown, key)) <==>
      (key in db.mem || Finds(h.streams, db.st.indexOffsets, c.blockLength, |h.streams|, key, SLACK_AS_WRITTEN, Lookup(h.shown, key)))
    ensures DbGet(db, key, SLACK_AS_WRITTEN).Ok? && DbGet(db, key, SLACK_AS_WRITTEN).value != Lookup(h.shown, key) <==>
      (key !in db.mem && FindsOther(h.streams, db.st.indexOffsets, c.blockLength, |h.streams|, key, SLACK_AS_WRITTEN, Lookup(h.shown, key)))
  {
    hide Runs, Backed, GetUpTo, Finds, MergedView, Lookup;
    ReadFacts(c, steps, db, h);
    LookupLayers(MergedView(h.streams), db.mem, key);
    assert key in db.mem ==> Lookup(h.shown, key) == db.mem[key];
    var r := DbGet(db, key, SLACK_AS_WRITTEN);
    forall v
      ensures r == Ok(v) <==> if key in db.mem then v == db.mem[key]
        else Finds(h.streams, db.st.indexOffsets, c.blockLength, |h.streams|, key, SLACK_AS_WRITTEN, v)
    {
      GetInAnyState(c, steps, db, h, key, SLACK_AS_WRITTEN, v);
    }
    if r.Ok? && r.value != Lookup(h.shown, key) {
      assert r == Ok(r.value);
    }
  }

  /** In every state a prefix scan of files and memtable is the plain map restricted to the
      prefix, if and only if the scan of every file ends well and nothing that matters is missed
      or made up. */
  lemma ScanInAnyStateIff(c: Config, steps: seq<Step>, db: Db, h: History, prefix: Bytes)
    requires Runs(c, steps, db, h)
    ensures db.st.Readable() && Ends(db.st.indexOffsets, h.streams)
    ensures Under(PrefixUpTo(db.disk, db.st, |db.st.files|, prefix, map[]), Restrict(db.mem, prefix)) == Ok(Restrict(h.shown, prefix))
      <==> ScanIsRight(h.streams, db.st.indexOffsets, c.blockLength, db.mem, prefix)
  {
    hide Runs, Backed, MergedView, PrefixUpTo, Restrict, ScanIsRight;
    ReadFacts(c, steps, db, h);
    ScanAnyEndsIff(db.disk, db.st, h.streams, c.blockLength, db.mem, prefix);
  }

  /** Until then, when it does not fail, it does not lie. */
  lemma NoErrorNoLie(c: Config, steps: seq<Step>, db: Db, h: History, key: Bytes)
    requires Runs(c, steps, db, h) && !h.stale
    requires key !in h.shown || h.shown[key] != []
    ensures db.st.Readable()
    ensures DbGet(db, key, SLACK_AS_WRITTEN) == Ok(Lookup(h.shown, key)) || DbGet(db, key, SLACK_AS_WRITTEN) == Error
  {
    hide Runs, Backed, MergedView, OffsetsAligned, GetUpTo, NotBlanked, Lookup, Trap, Shielded, NewestNonEmpty;
    ReadFacts(c, steps, db, h);
    LookupLayers(MergedView(h.streams), db.mem, key);
    UsuallyNotBlanked(h.streams, key);
    GetAsWritten(db.disk, db.st, h.streams, c.blockLength, |h.streams|, key);
    GetExact(db.disk, db.st, h.streams, c.blockLength, |h.streams|, key);
    ExactGetIff(db.disk, db.st, h.streams, c.blockLength, key);
    assert key in db.mem ==> Lookup(h.shown, key) == db.mem[key];
  }

  /** A prefix scan of files and memtable is that map restricted to the prefix, blanked values
      included. */
  lemma ScanIsMapScan(c: Config, steps: seq<Step>, db: Db, h: History, prefix: Bytes)
    requires Runs(c, steps, db, h) && !h.stale
    ensures db.st.Readable()
    ensures var files := PrefixUpTo(db.disk, db.st, |db.st.files|, prefix, map[]);
      files.Ok? && files.value + Restrict(db.mem, prefix) == Restrict(h.shown, prefix)
  {
    hide Runs, Backed, MergedView, OffsetsAligned, PrefixUpTo, Restrict;
    ReadFacts(c, steps, db, h);
    PrefixScanSpec(db.disk, db.st, h.streams, c.blockLength, prefix);
    RestrictPlus(MergedView(h.streams), db.mem, prefix);
  }

  // ----- crashes -----

  /** A crash in any state of any run: log, manifest and files are read back, and files and
      replayed log together hold exactly the logged writes. */
  lemma CrashLosesNothing(c: Config, steps: seq<Step>, db: Db, h: History)
    requires Runs(c, steps, db, h)
    ensures Recover(c, db).Some?
    ensures MergedView(h.streams) + Recover(c, db).value.mem == h.written
    ensures Backed(db.disk, Recover(c, db).value.st, h.streams, c.blockLength)
    ensures OffsetsAligned(Recover(c, db).value.st, h.streams)
  {
    hide Runs, LogOk, WriterOk, CompactorOk, Apart, Backed, MergedView, Effect, OffsetsAligned, Distinct, Recover, ViewOk, OffsetsOf;
    RunsKeep(c, steps, db, h);
    RecoverSpec(c, db, h);
    ReopenedBacked(db.disk, db.st, h.streams, c.blockLength, db.saved);
  }

  /** A crash in the middle of writing a record: the restart is refused, or it has everything
      before the command and nothing of it. It is never there in part. */
  lemma TornCommit(c: Config, steps: seq<Step>, db: Db, h: History, payload: Bytes, n: nat)
    requires Runs(c, steps, db, h) && |payload| <= MAX_PAYLOAD && n < |Record(c.crc, payload)|
    ensures var torn := Recover(c, db.(wal := db.wal + Record(c.crc, payload)[..n]));
      if TornOutcome(payload, n).None?
      then torn.Some? && MergedView(h.streams) + torn.value.mem == h.written
      else torn.None?
  {
    hide Runs, Log, WriterOk, CompactorOk, Apart, Backed, MergedView, Effect, OffsetsAligned, Distinct, Record,
      TornOutcome, Replay, OpenUpTo, OffsetsOf, AllDecode, Readable;
    RunsKeep(c, steps, db, h);
    ReplayTorn(c.crc, h.payloads, payload, n);
    ReopenSaved(c, db, h);
  }

  // ----- compaction and files -----

  /** A compaction that ran while any number of flushes landed: at the swap its snapshot is
      still a prefix of the list, its file holds the merge of that prefix, and the merged view
      is the same after the swap. */
  lemma CompactionIsInvisible(c: Config, steps: seq<Step>, db: Db, h: History)
    requires Runs(c, steps, db, h) && Enabled(db, SwapFiles)
    ensures IsPrefix(db.compactor.snapshot, db.st.files) && |db.st.files| == |h.streams|
    ensures ToTable(db.compactor.stream) == MergedView(h.streams[..|db.compactor.snapshot|])
    ensures MergedView(Recall(c, db, h, SwapFiles).streams) == MergedView(h.streams)
  {
    hide Runs, Backed, MergedView, Ascend, ToTable, LogOk, ViewOk, OffsetsOk, WriterOk, Apart, AfterSwap, Pending, Distinct;
    RunsKeep(c, steps, db, h);
    var n := |db.compactor.snapshot|;
    BackedShape(db.disk, db.st, h.streams, c.blockLength);
    PrefixShort(db.compactor.snapshot, db.st.files);
    AscendTable(MergedView(h.streams[..n]));
    SwapKeepsView(h.streams, n);
  }

  /** In every state files, index blocks and both manifests agree entry by entry, every listed
      file exists, and its index block is the one its bytes decode to; so do the offsets, until
      a swap as written leaves them behind. */
  lemma ListedFilesAreWhole(c: Config, steps: seq<Step>, db: Db, h: History, i: nat)
    requires Runs(c, steps, db, h) && i < |db.st.files|
    ensures |db.st.indexBlocks| == |db.st.files| && db.st.manifest.fileNames == db.saved.fileNames == db.st.files
    ensures Distinct(db.st.files) && db.st.files[i] in db.disk && |h.streams| == |db.st.files|
    ensures OpenFile(db.disk[db.st.files[i]]) == Ok(Opened(|Encode(h.streams[i])|, db.st.indexBlocks[i]))
    ensures !h.stale ==> |db.st.indexOffsets| == |db.st.files| && db.st.indexOffsets[i] == |Encode(h.streams[i])|
  {
    hide Runs, LogOk, ViewOk, WriterOk, CompactorOk, Apart, FileBytes, Blocks, IndexFor, Encode, OpenFile, Distinct;
    RunsKeep(c, steps, db, h);
    assert BackedAt(db.disk, db.st, h.streams, c.blockLength, i);
    NamedIsNotLone(h.streams[i], c.blockLength);
  }

  /** The next file number is above every listed file's, in memory and in the saved manifest,
      so neither a flush nor a compaction, even right after a crash, takes a listed name. */
  lemma NextNameIsUnlisted(c: Config, steps: seq<Step>, db: Db, h: History)
    requires Runs(c, steps, db, h)
    ensures db.saved.nextFileId <= db.st.manifest.nextFileId
    ensures forall f :: f in db.st.files || f in db.saved.fileNames ==> f < db.saved.nextFileId
  {
    hide Runs, LogOk, ViewOk, OffsetsOk, WriterOk, CompactorOk, Apart, Backed, Distinct;
    RunsKeep(c, steps, db, h);
  }

  // ----- no name twice, but across a crash -----

  /** One more than the largest number issued. */
  function Top(issued: seq<FileId>): (top: nat)
    ensures forall i :: 0 <= i < |issued| ==> issued[i] < top
  {
    if issued == [] then 0
    else
      var last, top := issued[|issued| - 1], Top(issued[..|issued| - 1]);
      if last < top then top else last + 1
  }

  /** Since the last start numbers were issued one after another, and no number below the
      largest was ever left out. */
  ghost predicate IssuedInOrder(next: FileId, issued: seq<FileId>, since: nat) {
    && since <= |issued|
    && (forall i :: since <= i < |issued| ==> issued[i] == next - (|issued| - i))
    && next <= Top(issued)
    && (forall n: nat :: n < Top(issued) ==> n in issued)
  }

  lemma IssueOne(next: FileId, issued: seq<FileId>, since: nat)
    requires IssuedInOrder(next, issued, since)
    ensures IssuedInOrder(next + 1, issued + [next], since)
  {
    hide Top;
    var more := issued + [next];
    TopAppend(issued, next);
    forall n: nat | n < Top(more)
      ensures n in more
    {
      if n != next {
        assert n in issued;
      }
    }
  }

  lemma TopAppend(issued: seq<FileId>, next: FileId)
    ensures Top(issued + [next]) == if next < Top(issued) then Top(issued) else next + 1
  {
    assert (issued + [next])[..|issued|] == issued;
  }

  lemma {:induction false} RunsIssueInOrder(c: Config, steps: seq<Step>, db: Db, h: History)
    requires Runs(c, steps, db, h)
    ensures IssuedInOrder(db.st.manifest.nextFileId, h.issued, h.since)
    decreases |steps|
  {
    hide IssuedInOrder, Inv, Next, Recall, Enabled, Granted;
    if steps == [] {
      NothingIssued();
    } else {
      var db0, h0 :| RunsTo(c, steps, db0, h0, db, h);
      var step := steps[|steps| - 1];
      RunsIssueInOrder(c, steps[..|steps| - 1], db0, h0);
      StepIssues(c, steps[..|steps| - 1], db0, h0, step);
    }
  }

  lemma NothingIssued()
    ensures IssuedInOrder(0, [], 0)
  {
  }

  lemma StepIssues(c: Config, steps: seq<Step>, db: Db, h: History, step: Step)
    requires Runs(c, steps, db, h) && Enabled(db, step) && Granted(c, db, step)
    requires IssuedInOrder(db.st.manifest.nextFileId, h.issued, h.since)
    ensures IssuedInOrder(Next(c, db, step).st.manifest.nextFileId, Recall(c, db, h, step).issued, Recall(c, db, h, step).since)
  {
    hide Runs, IssuedInOrder, LogOk, ViewOk, OffsetsOk, WriterOk, CompactorOk, Apart, Backed, Distinct, Recover, Granted,
      Blocks, IndexFor, Encode, Ascend, FileBytes, MergedEntries, Record, Contents, Effect, OffsetsOf, Keep;
    if step.Crash? {
      CrashIssues(c, steps, db, h);
    } else if step.NewTable? || step.CreateCompacted? {
      IssueOne(db.st.manifest.nextFileId, h.issued, h.since);
    }
  }

  lemma CrashIssues(c: Config, steps: seq<Step>, db: Db, h: History)
    requires Runs(c, steps, db, h) && IssuedInOrder(db.st.manifest.nextFileId, h.issued, h.since)
    ensures Next(c, db, Crash).st.manifest.nextFileId == db.saved.nextFileId
    ensures IssuedInOrder(db.saved.nextFileId, h.issued, |h.issued|)
  {
    hide Runs, Recover, Top, Effect, OffsetsOf, MergedView, Inv;
    RunsKeep(c, steps, db, h);
    RecoverSpec(c, db, h);
    NextNameIsUnlisted(c, steps, db, h);
  }

  /** No file name is issued twice between two starts. */
  lemma NoNameTwice(c: Config, steps: seq<Step>, db: Db, h: History)
    requires Runs(c, steps, db, h)
    ensures h.since <= |h.issued|
    ensures forall i, j :: h.since <= i < j < |h.issued| ==> h.issued[i] != h.issued[j]
    ensures db.st.manifest.nextFileId !in h.issued[h.since..]
  {
    hide Runs, Top;
    RunsIssueInOrder(c, steps, db, h);
  }

  /** After a crash the next name is one issued before exactly when a name had been taken since
      the manifest was last saved, or the next name was already an old one. */
  lemma CrashRepeatsNameIff(c: Config, steps: seq<Step>, db: Db, h: History)
    requires Runs(c, steps, db, h)
    ensures Next(c, db, Crash).st.manifest.nextFileId in h.issued
      <==> db.saved.nextFileId < db.st.manifest.nextFileId || db.st.manifest.nextFileId in h.issued
  {
    hide Runs, Next, Top;
    RunsIssueInOrder(c, steps, db, h);
    CrashIssues(c, steps, db, h);
    NextNameIsUnlisted(c, steps, db, h);
    OldIff(db.st.manifest.nextFileId, h.issued, h.since);
    OldIff(db.saved.nextFileId, h.issued, |h.issued|);
  }

  lemma OldIff(next: FileId, issued: seq<FileId>, since: nat)
    requires IssuedInOrder(next, issued, since)
    ensures next in issued <==> next < Top(issued)
  {
    hide Top;
  }

  /** What the compaction still has to delete is neither listed, nor named by the saved
      manifest, nor the file a flush is writing. */
  lemma OnlyDeadFilesDeleted(c: Config, steps: seq<Step>, db: Db, h: History)
    requires Runs(c, steps, db, h) && db.compactor.Deleting?
    ensures forall f :: f in db.compactor.todo ==> f !in db.st.files && f !in db.saved.fileNames
    ensures db.writer.Filling? ==> db.writer.id !in db.compactor.todo
  {
    hide Runs, LogOk, ViewOk, OffsetsOk, WriterOk, Backed, Distinct;
    RunsKeep(c, steps, db, h);
    BackedShape(db.disk, db.st, h.streams, c.blockLength);
  }
}
