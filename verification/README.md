# SaarDB, modelled and proved

SaarDB is a small key-value engine of the log-structured merge kind (a write-ahead log, a
memtable, sorted table files with an index block, a manifest, background compaction), with
strict two-phase-locking transactions and a relational layer (tables, secondary indexes, a
small SQL parser) on top. This project models that system and proves that its layers agree with
what they stand for: a plain map, a serial order of transactions, a full scan with a filter, the
statement a text spells. Check it with `dafny verify dfyconfig.toml`.

Keys, values and files are byte sequences; keys are ordered bytewise. Each object whose methods
update its fields is a class here (`SsTable`, `Wal`, `Memtable`, `DB`, `TransactionManager`,
`Transaction`, `TableDB`, `Tokens`, `StatementParser`), each loop is a loop, and each such method is proved
equal to a function; the theorems are about those functions.

## How the files fit together

- `ByteStrings`, `Tables`: order, prefixes, 32-bit integers; streams of entries and their tables.
- `TableFormat`, `TableReaders`, `TableLookup`, `TableScans`: the table file, byte by byte, and
  its readers.
- `StaleOffsets`, `ReusedNames`: the same readers with a wrong end of the data, and behind bytes
  left over from before a crash.
- `Store`, `StaleReads`: the reads over many files, with right ends and with any ends.
- `Compaction`, `SwapSafety`, `SsTableStore`: the swap, overlapping compactions, and the class.
- `WriteAheadLog`, `Commands`, `MemoryTable`: log framing, command codecs, the memtable.
- `Engine`, `EngineSteps`, `EngineTheorems`, `Database`: the engine as a state machine of small
  steps (log, memtable, new file, filling it in pieces, publishing, the two clears, snapshot,
  merge, swap, deletions, crash), its invariant, what holds in every reachable state, and the
  `DB` object as runs of that machine. `ExampleRuns` builds runs of the code as written;
  `LostKeys` and `LeftoverRuns` are such runs. `ConcurrentCommits`: commits at the same time.
- `Acknowledged`: what survives once a put or a commit has returned.
- `Locks`, `Serializability`, `Transactions`: the lock table, all runs of transactions, the class;
  `CommitOrder` and `LockRuns` tell those runs from their acts, `TransactionRuns` ties a commit of
  theirs to the engine. `ContendedInserts`: INSERT under those locks.
- `Rows`, `Catalog`, `SecondaryIndexes`, `IndexQueries`, `QueryLoops`: rows, catalogs, index
  maintenance and SELECT; `EngineQueries` puts SELECT on top of the engine.
- `CatalogStore`, `Startup`: CREATE TABLE, and opening a store, on top of the engine.
- `Tokeniser`, `Parser`, `ParserLoops`: statements; `AcceptedStatements`: nothing else is accepted;
  `Statements`: from a text to rows.

## Where the code does not do what it is for

The model keeps the code as it is and says exactly when it is right.

- `getValueFromSsTableDataBlock` reads one byte past the block (`sstable/sstable.go:441`). The
  readers take the number of extra bytes as a parameter; the class uses 1
  (`SLACK_AS_WRITTEN`). With 0, `Get` is the map lookup; with 1 it errs exactly as
  `FileGetSpec`, `GetAsWrittenIff` and `GetIsMapLookupAsWrittenIff` say, and never lies until a
  compaction finishes (`NoErrorNoLie`).
- `atomicSwap` builds the new offsets and does not store them (`sstable/compaction.go:125`,
  `136-137`), against its own comment (`105-108`). The class does the same
  (`STORES_OFFSETS_AS_WRITTEN`); a configuration of the step machine stores them. Theorems that
  require `!h.stale` hold until the first such swap after a start. `GetAsWrittenInAnyStateIff` and
  `ScanInAnyStateIff` are exact in every state, also after it, `SwapThenGetIff` and
  `SwapThenScanIff` for the swap itself. `CompactionLosesKeys` is a run that loses keys,
  `GetReturnsOverwritten` one in which `Get` returns an overwritten value without an error.
- `compacting` is tested and set at different times (`sstable/compaction.go:10-14`, `49-51`). In
  the step machine starting a compaction is one step, as the journal intends. What two
  overlapping ones do is `OverlapBesideIff`, for every interleaving of the second one's reads
  with the first one's deletions: a file already removed makes `getIndexOffset` panic
  (`sstable/sstable.go:268-269`), which ends the process with the list of the first swap saved; a
  file closed and not yet removed is an error, and the second merge is carried on empty.
- The empty string marks "no first key yet" in the writer (`sstable/sstable.go:164`, `203`):
  `ReopenIff` for a lone one, `EmptyKeyIsMissed` for one at the head of a longer stream. Runs are
  of non-empty keys, which the callers grant.
- `Get` skips empty values (`sstable/sstable.go:349`), `PrefixScan` does not: `GetIsMapLookupIff`
  names the keys concerned.
- New files are opened for appending and the next number is saved late
  (`sstable/sstable.go:82-92`), so after a crash in the middle of a flush the next one is
  appended to what is left (`CrashRepeatsNameIff`). A configuration of the step machine makes
  new files start empty (`startsEmpty`), and its runs go on after any crash; without it a run
  grants that a new name is not left over on disk. `ReusedNames` says what happens otherwise, and
  `LeftoverShutsStore` is a run in which it shuts the store for good.
- `NewDB` reads the catalogs through `Get` and fails when a read does (`db/db.go:68-71`). With the
  exact block length the tables always survive (`TablesSurvive`); as written `StartAsWrittenIff`
  is the exact condition, and `OnePutShutsStore` a store with one key that never starts again.
- CREATE TABLE is three puts (`db/create.go:35`, `40`, `48`). A crash between them, or an index
  over an unknown column, leaves a new table that no start can load: `CreateThenStart`.
- `Commit` takes no lock of the database (`db/transaction.go:212-232`): `CommitLost` is an
  acknowledged commit that is lost under the flush of another, `ApartLosesNothing` says when none
  can be.
- The log reader takes a cut behind a length or a payload for a clean end (`wal/wal.go:43-92`):
  `TruncatedLog`. What that does to the next write is `TornLengthIff` and `TornPayloadIff`, and to
  the next start `StartBehindLength` and `StartBehindPayload`. It refuses payloads above 1,000,000
  bytes, which the writer accepts: `RecordReadIff`.
- `releaseAllLocks` clears only the writer when the transaction also read the key
  (`db/transaction.go:129-131`): `LeakIff`, `LeakShutsOthersOut`, `ReuseAfterLeakNeverFrees`.
- `DB.Put` does not look at the lock table (`db/db.go:143-157`): runs of transactions admit the
  puts that are harmless, which `PlainPutSafeIff` shows to be the exact condition;
  `PutUnderReader` and `PutUnderCommit` say what the others break.
- `insertIntoTable` does not return after its `Rollback`s (`db/db.go:345-355`) and
  `updateSecondaryIndexes` does not look at refusals (`db/db.go:413`): `ContendedInsertIff` is the
  exact condition for what it then commits to be a table with its indexes.
- The index path puts every condition's value into the prefix in query order and ignores
  operators (`db/select.go:137-141`): `IndexPathAnswers`, `IndexPathIsRightIff`,
  `StrictThroughIndex`. A point query on an absent primary key decodes an empty value:
  `PointQueryIff`.
- An explicit PRIMARY KEY on the first column is refused (`sql_parser/parser.go:170`):
  `CreateReads`. The value loop of INSERT does not end on an unsupported character
  (`sql_parser/tokeniser.go:57-59`): `InsertIsForeverIff`. The limit of conditions is
  eleven, where the message says ten (`sql_parser/parser.go:275`).

## Model

| member | source | states |
|---|---|---|
| EngineTheorems.GetIsMapLookupIff | db/db.go:124-132 | in every state of every run of puts, commits, flushes, compaction steps and crashes, at any point of a write, `Get` is the lookup in the plain map of applied writes if and only if the key is in the memtable or its newest value on disk does not blank an older one (exact block length, no offsets left behind by a swap) |
| EngineTheorems.ShownIsWrittenBut | db/db.go:143-157 | that map is the map of all logged writes, but for a command whose record is in the log and which is not yet in the memtable |
| EngineTheorems.GetIsMapLookup | db/db.go:124-132 | so for every key never written, or last written with a non-empty value, `Get` is the plain map lookup |
| EngineTheorems.GetIsMapLookupAsWrittenIff | sstable/sstable.go:329-355 | with the extra byte read as written, until a swap has left the offsets behind: that value if and only if, besides, no file that spans the key without holding it is reached before one that answers |
| EngineTheorems.ListedFileGet | sstable/sstable.go:329-355 | in every state of every run, of the code as written too: what a listed file answers for any key, held or not, given the end the reader has for it |
| EngineTheorems.GetInAnyState | db/db.go:124-132 | in every state of every run, also after a swap that left the offsets behind: `Get` returns a value if and only if the memtable has it, or some file answers with it and all newer ones pass, or all pass for the empty value |
| EngineTheorems.GetAsWrittenInAnyStateIff | db/db.go:124-132 | so as written `Get` is the lookup in the plain map of applied writes if and only if the key is in the memtable or the search comes to that value, and returns a wrong value if and only if it comes to another one |
| EngineTheorems.ScanInAnyStateIff | sstable/sstable.go:359-388 | in every state of every run a prefix scan of files and memtable is that map restricted to the prefix if and only if the scan of every file ends well, every entry lost is covered by a newer one or comes out the same, and every entry made up from bytes behind the data is covered or comes out as it should |
| EngineTheorems.NoErrorNoLie | sstable/sstable.go:329-355 | as written, until a swap has left the offsets behind, `Get` gives the map value or an error, never a wrong value |
| EngineTheorems.ScanIsMapScan | sstable/sstable.go:359-388 | at any point of a write a prefix scan of files and memtable is that map restricted to the prefix, empty values included, until a swap has left the offsets behind |
| EngineTheorems.CrashLosesNothing | db/db.go:50-66 | from any state of any run log, manifest and files are read back, and files with the replayed log hold exactly the logged writes; the catalog reads that follow are in `Startup` |
| EngineTheorems.TornCommit | db/db.go:228-266 | a crash inside a log record leaves everything before the command and nothing of it, or the restart is refused, exactly by where the cut fell |
| EngineTheorems.CompactionIsInvisible | sstable/compaction.go:47-103 | at every swap in every run the snapshot is still a prefix of the list, the merged file is the newest-wins merge of that prefix, and the merged view does not change |
| EngineTheorems.ListedFilesAreWhole | sstable/sstable.go:99-116 | in every state files, index blocks and both manifests agree entry by entry, every listed file decodes to its index block, and its offset is the end of its data until a swap has left the offsets behind |
| EngineTheorems.NextNameIsUnlisted | sstable/sstable.go:82-92 | the next file number is above every listed and every saved one, also right after a crash |
| EngineTheorems.NoNameTwice | sstable/sstable.go:82-92 | between two starts no file name is issued twice |
| EngineTheorems.CrashRepeatsNameIff | sstable/sstable.go:82-92 | after a crash the next name is one issued before if and only if a name had been taken since the manifest was last saved, or the next name was already an old one |
| EngineTheorems.OnlyDeadFilesDeleted | sstable/compaction.go:98-102 | no file that is listed, saved in the manifest or being written by a flush is ever deleted |
| ReusedNames.ReusedNameIff | sstable/sstable.go:86-91 | whatever bytes a new file is appended to: a start finds the offset and index held when the table was written if and only if nothing was left over |
| ReusedNames.IntactGet | sstable/sstable.go:86-91 | through the index held in memory every lookup gives what it gives in a fresh file, with and without the byte too many, where the left-over bytes happen to be the beginning of the table |
| ReusedNames.IntactScan | sstable/sstable.go:86-91 | and so does every prefix scan |
| ReusedNames.LeftoverScansIff | sstable/sstable.go:86-91 | and where no key is the beginning of another, all scans are right only then |
| ReusedNames.CoveringLeftoverIff | sstable/sstable.go:86-91 | behind a part of another table that covers the new data, a scan of everything is right if and only if that other table begins with the new one |
| LeftoverRuns.LeftoverShutsStore | sstable/sstable.go:82-92 | a run of the code as written that stops after the first byte of its first flush and is started again: one more put is acknowledged and flushed behind that byte, and every later start panics on the file |
| EngineSteps.EveryStepKeeps | sstable/compaction.go:47-103 | each of the steps of flush, compaction, write and crash keeps the whole invariant |
| EngineSteps.RunsKeep | db/db.go:124-170 | the invariant holds in every reachable state |
| EngineSteps.ListedFilesMerge | sstable/compaction.go:47-58 | in every reachable state the listed files and the snapshot of a compaction can be merged without a panic |
| EngineSteps.RecoverSpec | db/db.go:50-66 | a restart rebuilds exactly the listed files with aligned offsets and the memtable of the log |
| EngineSteps.SwapFilesKeeps | sstable/compaction.go:109-141 | a swap after any number of flushes keeps files, indexes, manifests and the merged view |
| EngineSteps.PublishKeeps | sstable/sstable.go:99-116 | listing a flushed file keeps the running compaction valid and every logged write visible |
| TableFormat.WriteDataBlocks | sstable/sstable.go:152-211 | the one writer loop produces the data blocks, the index of first keys and the end offset of the cut stream |
| TableFormat.WriteIndexBlock | sstable/sstable.go:213-225 | the index block written is the encoding of the index |
| TableFormat.WriteToFile | sstable/sstable.go:124-145 | the whole file is data, index block and footer, and the offset and index returned are those a reader finds |
| TableFormat.CutUpFlat | sstable/sstable.go:152-211 | cutting into blocks loses and moves no entry |
| TableFormat.CutUpSizes | sstable/sstable.go:152-211 | every closed block is past the limit and was within it before its last entry; the open block is within it |
| TableReaders.GetLowerBound | sstable/sstable.go:464-478 | the binary search returns the last block whose first key is at or below the key, and -1 exactly when there is none |
| TableReaders.ScanBlockSpec | sstable/sstable.go:440-462 | scanning a block finds a key exactly when it is there; a tail of one to three bytes after it turns a miss into an error |
| TableReaders.ScanPrefixSpec | sstable/sstable.go:402-438 | a prefix scan with its early stop collects exactly the entries with the prefix and never overrides a newer file |
| TableReaders.ScanAllSpec | sstable/compaction.go:18-45 | reading a whole file adds exactly its entries |
| TableLookup.LabelsAscend | sstable/sstable.go:152-211 | first keys in the index of a sorted stream ascend |
| TableLookup.OneBlockDecides | sstable/sstable.go:329-355 | the stream holds a key if and only if the one chosen block does, with the same value |
| TableLookup.FileGetSpec | sstable/sstable.go:329-355 | lookup through index and one block equals lookup in the stream for every stream, block length and key; with the extra byte it errs exactly for absent keys not below the first one |
| TableScans.FilePrefixSpec | sstable/sstable.go:359-388 | starting at the lower-bound block and stopping early, one file contributes exactly its entries with the prefix not given by newer files |
| TableScans.SkippedFile | sstable/sstable.go:370-377 | a file skipped because its first key is past the prefix holds nothing with the prefix |
| TableScans.FileIntoSpec | sstable/compaction.go:18-45 | a file read for compaction decodes to its stream |
| TableScans.ReopenIff | sstable/sstable.go:267-327 | parsing footer and index block of a written file gives back the offset and index held in memory, except for exactly one kind of stream (an empty key alone in its block) |
| TableScans.OpenLoneEmptyKey | sstable/sstable.go:280-327 | on that stream reopening panics |
| TableScans.KeptWholeIff | sstable/sstable.go:160-211 | the sentinel loses entries exactly on that stream |
| TableScans.EmptyKeyIsMissed | sstable/sstable.go:329-355 | a value under the empty key is missed by `Get` unless it fills a block by itself |
| Store.ExactGetIff | sstable/sstable.go:329-355 | over any list of files the exact lookup is the merged map lookup if and only if the key is not blanked |
| Store.GetAsWrittenIff | sstable/sstable.go:329-355 | the lookup as written is it if and only if, besides, every file that spans the key without holding it is shadowed by a newer file that holds it |
| Store.PrefixScanSpec | sstable/sstable.go:359-388 | `PrefixScan` over any list of files is the newest-wins merge restricted to the prefix |
| Store.CompactedSpec | sstable/compaction.go:18-45 | the compacted map of any number of files is their newest-wins merge |
| Store.ReopenIsInvisible | sstable/sstable.go:231-265 | reopening in manifest order rebuilds the very state held in memory |
| Compaction.SwapOfPrefix | sstable/compaction.go:109-141 | swapping a prefix of the list leaves the merged file followed by everything after the prefix, in order |
| Compaction.SwapKeepsView | sstable/compaction.go:109-141 | the merged view is the same before and after the swap |
| Compaction.SwapKeepsBacking | sstable/compaction.go:109-141 | files, index blocks and manifest names stay aligned through the swap |
| Compaction.SwapKeepsOffsets | sstable/compaction.go:105-141 | with the offsets stored, as the comment intends, they stay aligned too |
| Compaction.SwapMisplacesEnds | sstable/compaction.go:125-141 | the reader of the i-th file takes for its end that of the file that stood there before the swap |
| Compaction.SwapThenFileGetIff | sstable/compaction.go:125-141 | so in each file a key with a value is found if and only if it is outside the last block or ends no more than one byte after the data of the file that stood there before |
| Compaction.SwapThenGetIff | sstable/compaction.go:125-141 | after the swap as written of any number of files, with any number of newer ones behind them, `Get` of any key is what it was before if and only if the search comes to that value with the i-th file read up to where the i-th file before the swap ended |
| Compaction.SwapThenScanIff | sstable/compaction.go:125-141 | and likewise a prefix scan, if and only if nothing that matters is lost or made up with those ends |
| LostKeys.CompactionLosesKeys | sstable/compaction.go:125-141 | a run of four puts and one compaction at the default block length, for any checksum and any value that fills the memtable: afterwards `Get` of the last key panics and a scan of everything gives one row of four |
| LostKeys.GetReturnsOverwritten | sstable/compaction.go:125-141 | a run with a transaction flushed while a compaction is under way, at the default block length, for any checksum and any values of the right lengths: afterwards `Get` returns, without an error, the value the transaction has overwritten |
| Compaction.ForgottenOffsetsNeverMatch | sstable/compaction.go:125-141 | as written there are more offsets than files after every compaction of two files or more |
| StaleOffsets.StaleGet | sstable/sstable.go:329-355 | what one file answers for a key it holds, wherever the reader takes its data to end: the value, nothing, an error or an allocation out of range, each with its exact condition |
| StaleOffsets.StaleGetIff | sstable/sstable.go:329-355 | a key with a value is found through a wrong end if and only if it is outside the last block or wholly before that end |
| StaleOffsets.StaleScan | sstable/sstable.go:359-388 | up to a wrong end within the data a prefix scan gives exactly the entries wholly before it, silently on a boundary or when it stops earlier, else it fails |
| StaleOffsets.StaleScanIff | sstable/sstable.go:359-388 | when such a scan is right all the same |
| StaleOffsets.StaleScanBeyond | sstable/sstable.go:359-388 | past the data nothing is lost, but unless the scan stops it reads on into index block and footer |
| StaleReads.AnyEndGet | sstable/sstable.go:329-355 | what one file answers for any key and any end the reader has: passed over, value, clean miss, error, allocation out of range, or what the bytes behind the data spell |
| StaleReads.SilentlyLostIff | sstable/sstable.go:329-355 | a file that holds a key with a value passes it over without an error if and only if the key is in the last block behind the end, and the end falls between two entries of that block |
| StaleReads.GetFindsIff | sstable/sstable.go:329-355 | over any list of files with any ends, exactly when `Get` returns which value |
| StaleReads.AnyEndScan | sstable/sstable.go:359-388 | what one file contributes to a prefix scan with any end, under what newer files gave |
| StaleReads.PrefixAnyEnds | sstable/sstable.go:359-388 | over any list of files with any ends a prefix scan succeeds if and only if every file's does, and is the newest-wins merge of what they contribute |
| StaleReads.ScanAnyEndsIff | sstable/sstable.go:359-388 | exactly when that is what it should be, memtable included |
| SwapSafety.SwapSafeIff | sstable/compaction.go:109-141 | the swap keeps the view of every possible contents if and only if the snapshot is a prefix of the list at that time |
| SwapSafety.OverlapIff | sstable/compaction.go:47-58 | two overlapping compactions whose second merge is whole keep the view if and only if no later file changed a key the older merge holds |
| SwapSafety.OverlapEmptyIff | sstable/compaction.go:60-68 | if the second merge failed with an error it is carried on empty, and the view stays if and only if every key of the files it drops is in the older merge with the same value or covered by a later file |
| SwapSafety.MissingFilePanics | sstable/sstable.go:267-276 | a merge that comes to a file that is gone panics, as `os.Stat` gives no size and its error is not looked at |
| SwapSafety.MergeBesideSpec | sstable/compaction.go:98-102 | reading beside the deletions of the first compaction, the second merge is whole if every file is read before it is closed; else the first file that is not decides: removed when its size is asked for is a panic, closed by the last read an error |
| SwapSafety.BesideNothing | sstable/compaction.go:18-45 | with nothing deleted meanwhile that is the merge of the files themselves |
| SwapSafety.OverlapBesideIff | sstable/compaction.go:47-103 | in any interleaving of the second compaction's reads with the first one's deletions nothing changes for the readers, a restart included, if and only if the second panics, or is whole or empty and meets the condition above for that |
| SsTableStore.GetValueFromDataBlock | sstable/sstable.go:440-462 | the point-read loop computes the block read with the extra byte |
| SsTableStore.SequentialScan | sstable/sstable.go:402-438 | the scan loop computes the prefix scan of a byte range |
| SsTableStore.ReadAll | sstable/compaction.go:18-45 | the whole-file loop computes the map update |
| SsTableStore.BuildIndexFromFile | sstable/sstable.go:280-327 | the footer and index loop computes what a reopened file yields |
| SsTableStore.SsTable.LoadFiles | sstable/sstable.go:231-265 | the state after loading is the one opened from manifest and files |
| SsTableStore.SsTable.NewFile | sstable/sstable.go:82-92 | takes the next number in memory only and keeps what a left-over file holds |
| SsTableStore.SsTable.Write | sstable/sstable.go:99-116 | appends the encoded stream, lists file, index and offset, and saves the manifest |
| SsTableStore.SsTable.Get | sstable/sstable.go:329-355 | newest to oldest, the first file that answers |
| SsTableStore.SsTable.PrefixScan | sstable/sstable.go:359-388 | newest to oldest, never overriding |
| SsTableStore.SsTable.BuildCompactedMap | sstable/compaction.go:18-45 | oldest to newest, overriding; a removed file panics, an unreadable one is an error |
| SsTableStore.SsTable.AtomicSwap | sstable/compaction.go:109-141 | files, index blocks and manifest are rebuilt from what the snapshot does not hold; the offsets are left as they were |
| SsTableStore.SsTable.RunCompaction | sstable/compaction.go:47-103 | a compaction with no flush in between: snapshot, merge, swap, delete; it ends in the middle exactly when a file it is to merge is gone |
| WriteAheadLog.RecordReadIff | wal/wal.go:21-92 | a written record is read back if and only if its payload is at most 1,000,000 bytes, whatever the checksum function |
| WriteAheadLog.PayloadIff | wal/wal.go:43-92 | and whatever the reader accepts is a record, length, payload and checksum, of just the payload it returns |
| WriteAheadLog.TruncatedLog | wal/wal.go:43-92 | any truncation yields exactly the payloads of its complete records, then end of file after 0, 4 or 4 plus length bytes of the next and a partial-write fault otherwise |
| WriteAheadLog.EveryCut | wal/wal.go:43-92 | every cut of a log falls inside one record as that statement has it |
| WriteAheadLog.WholeLog | wal/wal.go:43-92 | a whole log yields its payloads |
| WriteAheadLog.TornLengthIff | wal/wal.go:43-92 | a write behind a torn length is read back if and only if it has that length, repeats its own length throughout, checksum included, and that is a length the reader accepts |
| WriteAheadLog.TornPayloadIff | wal/wal.go:43-92 | behind a torn payload the next start is refused unless the torn checksum is the length of the write, which is read back if and only if it is the torn payload again and its checksum and first bytes are its length |
| Commands.NextCommandIsLost | db/db.go:228-266 | so a PUT or TRANSACTION written behind either cut is never read back as the next record |
| Commands.StartBehindLength | db/db.go:228-266 | however many commands were logged behind a torn length, the next start is refused, unless they are together as long as the payload torn off; then it succeeds with all of them lost |
| Commands.StartBehindPayload | db/db.go:228-266 | however many commands were logged behind a torn payload, the next start is refused |
| WriteAheadLog.Wal.WriteEntry | wal/wal.go:21-35 | appends exactly one record |
| WriteAheadLog.Wal.ReadEntry | wal/wal.go:43-92 | reads one record, fault or end and moves past it |
| WriteAheadLog.Wal.Clear | wal/wal.go:97-100 | leaves an empty log |
| Commands.PutRoundTrip | db/db.go:205-226 | decoding an encoded PUT gives it back |
| Commands.TransactionRoundTrip | db/transaction.go:166-204 | decoding an encoded transaction gives back its writes in order |
| Commands.AcceptedReencodes | db/db.go:177-226 | every accepted payload is the encoding of what it decodes to |
| Commands.OrderDoesNotMatter | db/transaction.go:166-176 | a transaction encoded in any map order replays to the same table |
| Commands.DeserialiseTransaction | db/transaction.go:179-204 | the decoding loop computes the decoder |
| Commands.SerialiseTransaction | db/transaction.go:166-176 | the encoding loop lists the map in some order and encodes that |
| Commands.ReplayLog | db/db.go:228-266 | replaying a log rebuilds the effect of its records |
| Commands.ReplayTorn | db/db.go:228-266 | replaying a torn log rebuilds everything before the torn record or is refused |
| MemoryTable.TotalSizePut | memtable/memtable.go:50-61 | what a put does to the summed lengths of keys and values |
| MemoryTable.Memtable.Put | memtable/memtable.go:50-61 | updates the map and keeps the size equal to the summed lengths |
| MemoryTable.Memtable.PrefixScan | memtable/memtable.go:65-77 | ascending from the prefix to the first key without it finds exactly the keys with it |
| MemoryTable.Memtable.Clear | memtable/memtable.go:87-90 | leaves an empty table of size zero |
| Database.WriteIsRun | db/db.go:134-157 | a whole write with its flush is a run of the step machine that adds exactly that write to the map |
| Database.CommitIsRun | db/transaction.go:206-232 | so is a whole commit: from any run with no write in progress it ends in a run whose map has gained all writes of its record at once |
| Acknowledged.PutSurvives | db/db.go:143-157 | stopped right behind an acknowledged put, files and replayed log hold everything written before and this put |
| Acknowledged.CommitSurvives | db/transaction.go:206-232 | stopped right behind an acknowledged commit, files and replayed log hold everything written before and every write of the transaction, in whatever order its map was visited |
| Acknowledged.CommitIsReadBack | db/transaction.go:206-232 | and after that start every key reads as the transaction wrote it, or as before where it did not (exact block length, non-empty values) |
| Acknowledged.FlushIff | db/db.go:134-157 | a put or commit flushes if and only if it brings the memtable to 1000 bytes; then all of it is in the newest file and log and memtable are empty, otherwise the record is behind the log and no file has changed |
| Database.CompactionIsRun | sstable/compaction.go:47-103 | a whole compaction is a run of the step machine that leaves exactly what `RunCompaction` leaves, and no write is lost or gained |
| Database.DB.BuildMemtableFromWal | db/db.go:228-266 | the replay loop computes the replayed table, or is refused exactly when replay is |
| Database.DB.Restart | db/db.go:50-66 | the object after log, manifest and files are read is the recovered state of the step machine |
| Database.DB.Get | db/db.go:124-132 | memtable first, then the files as written |
| Database.DB.FlushAndClear | db/db.go:134-170 | flush, then clear the memtable, then clear the log, as the steps have it |
| Database.DB.Put | db/db.go:143-157 | the object after a put is the state after the steps of a put |
| Database.DB.Commit | db/transaction.go:206-232 | one log record for all writes, then the memtable, then a flush if due: the state that CommitIsRun and CommitSurvives are about |
| ConcurrentCommits.CommitLost | db/transaction.go:212-232 | two commits of different keys: one that logs and applies between the flush and the clears of the other is acknowledged and then in neither files, memtable nor log |
| ConcurrentCommits.ApartLosesNothing | db/transaction.go:212-232 | in every run of any number of commits, if from the flush of one to its clears no other logs, applies or flushes, and a flush waits for records to be applied: files and log hold everything logged at any time, and files and memtable everything once no commit is under way |
| Locks.AcquireWriteKeeps | db/transaction.go:27-64 | a granted write lock keeps the table exclusive and the held keys exact, through upgrade |
| Locks.AcquireReadKeeps | db/transaction.go:66-95 | so does a granted read lock, through read-after-write |
| Locks.ReadGrantedIff | db/transaction.go:66-95 | a read is granted if and only if the key has no writer or the transaction is its writer; it then stands behind all other readers, once, and nothing else has changed; a refusal names the writer |
| Locks.WriteGrantedIff | db/transaction.go:27-64 | a write is granted if and only if no other transaction is the key's writer or among its readers; the transaction is then the writer, and nothing else has changed; a refusal says which stood in the way |
| Locks.GrantedMeansAlone | db/transaction.go:27-95 | a granted write means nobody else is named on the key; a granted read means nobody else writes it |
| Locks.AttemptsLeaveOthers | db/transaction.go:27-95 | an attempt changes nobody else's locks |
| Locks.NoInconsistency | db/transaction.go:126-152 | the reported INCONSISTENCY branch is never reached |
| Locks.ReleaseLeavesOthers | db/transaction.go:126-152 | a release changes nobody else's locks |
| Locks.LeakIff | db/transaction.go:126-152 | a finished transaction's id stays behind on exactly the keys it read after locking them for writing |
| Locks.PutThenGetLeaks | db/transaction.go:126-152 | a put, a get and a release that leave the id behind |
| Locks.ReuseAfterLeakNeverFrees | db/transaction.go:27-64 | using the finished transaction again then locks the key for good |
| Serializability.LeakShutsOthersOut | db/transaction.go:27-64 | however a run goes on, every other transaction is refused the write lock on a leaked key |
| Serializability.Serializable | db/transaction.go:98-161 | over every run of transactions and harmless plain puts, commits in several steps and rollbacks included, the committed ones replayed one after another read the same values and leave the same store |
| CommitOrder.CommitOrderExplains | db/transaction.go:98-161 | told from the acts of a run alone: in the granted gets and puts of the committed transactions, lined up in the order of their log records, every get returned the value of the last put of its key before it, and, with no commit under way, the store holds for each key the value of the last put, and nothing else |
| CommitOrder.HistoryIsCommitOrder | db/transaction.go:98-161 | the history is exactly that list: each put with the key and value asked for, each get with the value it returned, in order |
| CommitOrder.EndsOnce | db/transaction.go:158-232 | a transaction ends once: it commits a single time, and one that is rolled back is never in the list |
| LockRuns.HoldsWhatItAskedFor | db/transaction.go:27-124 | in every state of every run a transaction at work is the writer of exactly the keys it was granted a put on, and among the readers of exactly those it was granted a get on since |
| LockRuns.LeavesBehindIff | db/transaction.go:126-161 | one that has ended, committed or rolled back, has given back every lock except on exactly the keys it was granted a get on after a put |
| TransactionRuns.CommitActsRun | db/transaction.go:206-232 | the log record, the writes in whatever order the map is visited in, and the release are acts of a run that leave the store with exactly the transaction's writes, its operations last in the history, and its locks released |
| TransactionRuns.CommitInStep | db/transaction.go:206-232 | where the map of all logged writes is the store of a run of transactions, it still is after a whole commit as steps of the engine and acts of the run |
| Serializability.ReadsStayCurrent | db/transaction.go:113-124 | what a live transaction has read is still current and locked |
| Serializability.LocksStayExact | db/transaction.go:27-152 | over every run the lock table is exclusive and each transaction at work remembers exactly the keys it is named on, each once |
| Serializability.EveryActKeeps | db/transaction.go:98-161 | every act keeps the invariant behind these |
| Serializability.PlainPutSafeIff | db/db.go:143-157 | in every state of every run a put outside transactions keeps all that serializability rests on, readers and store, if and only if it changes nothing a live transaction took from the store and no commit under way still has to bring another value of the key |
| Serializability.PutUnderReader | db/db.go:143-157 | else, under a reader, the history is no longer legal once that one commits |
| Serializability.PutUnderCommit | db/db.go:143-157 | and under a commit, the store ends with a value that a replay of the log would not give |
| Transactions.TransactionManager.Begin | db/db.go:268-278 | a fresh id, no locks, no buffered writes: the act of a run |
| Transactions.Transaction.TryAcquireWriteLock | db/transaction.go:27-64 | refused or granted with the new table and held keys as specified |
| Transactions.Transaction.TryAcquireReadLock | db/transaction.go:66-95 | refused or granted with the new table and held keys as specified |
| Transactions.Transaction.Put | db/transaction.go:98-111 | buffers the write only under the lock; refused or granted, the object stays what the act of a run makes of it |
| Transactions.Transaction.Get | db/transaction.go:113-124 | under the lock, the own buffered write or what the database holds: where that is the store of a run, the value its act returns |
| Transactions.Transaction.ReleaseAllLocks | db/transaction.go:126-152 | releases every held key, in order; a key that does not name the transaction is left alone |
| Transactions.Transaction.Rollback | db/transaction.go:158-161 | releases and forgets the buffered writes, as the act of a run does |
| Transactions.Transaction.Commit | db/transaction.go:206-232 | the database first, as CommitSurvives has it, then the locks, then the buffer: the acts of a whole commit of a run |
| Rows.ShownIff | db/db.go:296-329 | a stored value is shown as it was given if and only if it is canonically spelt |
| Rows.EncodeIff | db/db.go:304-326 | INSERT accepts for an INT exactly an optional sign and digits within 64 bits, for a BOOL such a text of the number 0 or 1, for a STRING anything, and stores the low 32 bits highest byte first, one byte, or the length and the bytes |
| Rows.AtoiIff | db/db.go:306-310 | the number read is the sum of the digits by their places, with its sign; nothing but a numeral is one |
| Rows.CanonicalIff | db/select.go:205-208 | integers that come back as given are exactly the plain decimals below 2^32 |
| Rows.RowRoundTripIff | db/select.go:196-222 | a stored row reads back as given if and only if every INT is the canonical decimal of a number below 2^32 and every BOOL is 0 or 1, over every schema |
| Rows.SerialiseRowLoop | db/db.go:296-329 | the loop computes the row bytes or the error |
| Catalog.SchemaRoundTrip | db/create.go:146-196 | any column list survives a restart with its key position |
| Catalog.SchemaLayout | db/create.go:146-157 | byte by byte: the position of the primary key, then for each column its type as 0, 1 or 2 and its name behind the length |
| Catalog.CatalogRoundTrip | db/create.go:59-142 | any indexes over the table's columns survive a restart, repeated column names included; an unknown column is refused when written |
| Catalog.DeserialiseCreateTable | db/create.go:159-196 | the loop computes the decoded schema or the error |
| CatalogStore.SplitJoin | db/db.go:92 | the names of the tables come back from the catalog record, in whatever order they were listed |
| CatalogStore.LoadsIff | db/db.go:82-117 | through reads that are right or fail with an error, exactly the tables are loaded if no catalog key fails, and the load is refused otherwise |
| CatalogStore.CreateKeeps | db/create.go:20-50 | the three puts of CREATE TABLE leave the records of the old tables and the new one, in whatever order the map of tables is walked |
| CatalogStore.OnePutIff | db/create.go:35 | after only the first of them the tables can be loaded if and only if the table had been there before |
| CatalogStore.TwoPutsIff | db/create.go:40-48 | after only the first two, or when an index names an unknown column, if and only if it had been there and the columns of its old indexes are positions of the new schema |
| Startup.StartIsMapStart | db/db.go:50-117 | a start after a crash in any state of any run, with the exact block length, loads what the plain map of all logged writes says |
| Startup.TablesSurvive | db/db.go:50-117 | so it loads exactly the tables whose records were written |
| Startup.StartAsWrittenIff | db/db.go:50-117 | as written it does so if and only if no file that spans a catalog key of these tables without holding it is reached before one that answers; otherwise the start is refused |
| Startup.OnePutShutsStore | db/db.go:68-71 | a run of the code as written: one put of a key below the catalog's, flushed, and the store never starts again, although nothing is lost |
| Startup.CreateIsRun | db/create.go:20-50 | the puts of CREATE TABLE, all or the first of them, take a run to a run |
| Startup.CreateThenStart | db/create.go:20-50 | a start after all three loads the old tables and the new one, and after one or two succeeds under the exact condition above, from any state of any run between two writes (exact block length) |
| Startup.TableDB.GetTableNameVsSchemaMap | db/db.go:82-117 | the loop reads the tables through `Get` as written, first failure first |
| Startup.TableDB.NewDB | db/db.go:50-80 | the object after opening has the recovered state and the tables loaded from it, or the start fails |
| Startup.TableDB.CreateTable | db/create.go:20-51 | names of all tables in the order of the map, then schema, then indexes: the engine after those puts, and an error when an index names an unknown column |
| SecondaryIndexes.QueryPrefixIff | db/db.go:364-377 | an index key has a query's prefix if and only if its first values are the query's, in order |
| SecondaryIndexes.LastPartSpec | db/select.go:266-275 | the part after the last colon of an index key is its primary key |
| SecondaryIndexes.InsertKeepsInStep | db/db.go:331-358 | an insert with a fresh key, or over a row with the same index entries, keeps rows and index entries in one-to-one correspondence |
| SecondaryIndexes.InsertAcceptedIff | db/db.go:331-358 | an INSERT writes anything if and only if it gives every column a value its type accepts and, where the table has indexes, a primary key; otherwise the store is what it was |
| SecondaryIndexes.WritesExactly | db/db.go:331-358 | it writes the row under its key, one empty value under its key in each index, and nothing else |
| SecondaryIndexes.KeysAreJoined | db/db.go:360-377 | the keys are the parts with a colon between each two: table and primary key, or `index`, table, index, values and primary key |
| SecondaryIndexes.InsertInStepIff | db/db.go:331-358 | and exactly such an insert does: over a row with another index entry, that entry is left behind |
| SecondaryIndexes.OtherInsertKeeps | db/db.go:331-358 | an insert into another table does not touch it |
| ContendedInserts.CommitsUnderIff | db/db.go:331-358 | under any locks an INSERT commits exactly those of its writes in whose way no other transaction stands |
| ContendedInserts.ContendedInsertIff | db/db.go:331-358 | so the INSERT of a new row leaves table and indexes in step, whatever rows that makes it, if and only if it got all of its locks or none |
| ContendedInserts.UpdateSecondaryIndexes | db/db.go:403-416 | the loop puts one entry per index into the transaction, goes on past a refused lock and stops at a missing value |
| ContendedInserts.InsertIntoTable | db/db.go:331-358 | begin, put the row, roll back where that is refused and go on, put the entries, commit: the writes, the log record and the lock table these statements are about |
| SecondaryIndexes.RunsKeepInStep | db/db.go:331-416 | rows and index entries correspond one to one over every run of inserts |
| IndexQueries.IndexPathIsRightIff | db/select.go:132-160 | for equality conditions that some row can meet, the index path lists the answers on every table if and only if the prefix matches what the query asks |
| IndexQueries.PrefixOrderIsAligned | db/select.go:132-160 | conditions written in the order of the index's first columns meet that condition |
| IndexQueries.IndexPathAnswers | db/select.go:132-160 | what the index path returns for any query: rows holding the query's values in index order and meeting the conditions on columns not covered |
| IndexQueries.StrictThroughIndex | db/select.go:137-141 | a strict comparison on the index column of its own position is never answered: no row the index path returns meets the query |
| IndexQueries.ScanAnswers | db/select.go:122-130 | full scan plus filter lists exactly the rows that meet all conditions, each once, in every map order |
| IndexQueries.PrefixFindsPositional | db/select.go:256-280 | the prefix scan finds exactly the primary keys of rows with the given values in index order |
| IndexQueries.FilterSpec | db/select.go:96-120 | the filter keeps exactly the rows that meet the conditions not skipped, each once |
| IndexQueries.HoldsIff | db/select.go:78-91 | each operator as it is meant: `<` if and only if, at the first place where the two differ, the row's value has ended or has the smaller byte, `>` the other way round, `<=` and `>=` as their negations; an unknown operator is an error |
| ByteStrings.LessIff | db/select.go:82-89 | Go's order of strings, place by place: one is below the other if and only if, where they first differ, it has ended or has the smaller byte |
| IndexQueries.FilterKeeps | db/select.go:96-120 | what it keeps where an operator is unknown and no row is left to meet it |
| IndexQueries.FilterOkIff | db/select.go:96-120 | the filter fails if and only if it comes to an unknown column, or to an unknown operator with a row left |
| IndexQueries.ChooseSpec | db/select.go:39-72 | the first wholly covered index is chosen, else the last with its first column asked about, else none |
| IndexQueries.PointQueryIff | db/select.go:23-34 | a point query answers if and only if the key is there; otherwise decoding an empty value goes out of range |
| IndexQueries.SelectAnswers | db/select.go:163-193 | SELECT by point, scan or aligned index lists exactly the rows that meet all conditions, each once |
| EngineQueries.SelectByAgrees | db/select.go:163-193 | SELECT through any reads that show a map is SELECT over that map |
| EngineQueries.SelectOverEngine | db/select.go:163-193 | in every state of every run that holds a table in step, with no offsets left behind, SELECT through the reads of the engine lists exactly the rows that meet all conditions, each once; as written, if none of the keys it reads rows by runs into a file that spans it without holding it |
| QueryLoops.FilterQueryConditions | db/select.go:96-120 | the nested loops compute the filter |
| QueryLoops.GetSecondaryIndexForQuery | db/select.go:39-72 | the loops compute the choice |
| QueryLoops.FullTableScan | db/select.go:224-253 | memtable rows, then file rows it does not have: every row of the merged map once |
| QueryLoops.SecondaryIndexPrefixScan | db/select.go:256-280 | each primary key once |
| QueryLoops.DeserialiseRowValues | db/select.go:196-222 | the cursor loop computes the decoded row |
| QueryLoops.GetRows | db/select.go:23-34 | the rows under a list of primary keys through any `Get`, its failures included |
| QueryLoops.SelectFromTable | db/select.go:163-193 | computes SELECT through any reads, their failures included, in some map order |
| QueryLoops.GetSecondaryIndexKeyOrPrefix | db/db.go:364-377 | the loop computes the colon-separated key or prefix |
| QueryLoops.GetIndexAndPrimaryKeyColumnValues | db/db.go:379-401 | the nested loops find the index values in index order and the key, or fail |
| QueryLoops.UpdateSecondaryIndexes | db/db.go:403-416 | one entry per index, or an error |
| QueryLoops.InsertIntoTable | db/db.go:331-358 | the row and its index entries, or nothing |
| Tokeniser.ProgressIff | sql_parser/tokeniser.go:57-96 | a token other than the end consumes input if and only if the first character that is not a space is supported |
| Tokeniser.NextIff | sql_parser/tokeniser.go:57-96 | the next token of any text, exactly: behind the spaces the longest run of operator characters or of letters and digits, a keyword if and only if its upper-case letters are one of eleven, or one symbol, or the end |
| Tokeniser.StuckStays | sql_parser/tokeniser.go:57-96 | at an unsupported character the tokeniser stays where it is |
| Tokeniser.TextReads | sql_parser/tokeniser.go:60-96 | tokens written with any spacing that keeps them apart read as these tokens |
| Tokeniser.Tokens.NextToken | sql_parser/tokeniser.go:60-96 | the loops compute the next token and what is left |
| Parser.CreateRoundTrip | sql_parser/parser.go:78-184 | CREATE TABLE with any spacing, commas and order of parts parses to the columns it spells, each INT, STRING or BOOL as written, and the primary key of its last clause |
| Parser.CreateReads | sql_parser/parser.go:110-184 | so does any text that reads as one; it is refused if and only if it has no column or its PRIMARY KEY names none past the first |
| Parser.OtherTypeRefused | sql_parser/parser.go:78-89 | a column of any other type word is refused, whatever stands before and behind it |
| AcceptedStatements.CreateAcceptsIff | sql_parser/parser.go:110-184 | the parser makes a table of a text if and only if the text starts with a well-formed CREATE TABLE of just this table |
| Parser.InsertRoundTrip | sql_parser/parser.go:192-232 | INSERT INTO with any spacing and commas parses to what it spells |
| AcceptedStatements.InsertAcceptsIff | sql_parser/parser.go:192-232 | and of this row if and only if it starts with a well-formed INSERT INTO of just these values |
| Parser.SelectRoundTrip | sql_parser/parser.go:234-340 | SELECT with any spacing and commas parses to what it spells, within ten columns and eleven conditions and not beyond |
| AcceptedStatements.SelectAcceptsIff | sql_parser/parser.go:234-340 | and of this query if and only if it starts with a well-formed SELECT of just these columns and conditions, one to ten and at most eleven |
| Parser.SupportedInsertEnds | sql_parser/parser.go:211-222 | on supported characters INSERT ends |
| Parser.ForeverRepeats | sql_parser/parser.go:211-222 | at an unsupported character a turn of the value loop leaves the parser as it was |
| Parser.InsertIsForeverIff | sql_parser/parser.go:192-232 | INSERT never ends on exactly the texts that begin well and reach, in the value list and with or without a comma before it, a place where the tokeniser is stuck |
| ParserLoops.StatementParser.Consume | sql_parser/parser.go:53-76 | consumes the expected token or changes nothing |
| ParserLoops.StatementParser.ParseCreateTable | sql_parser/parser.go:110-184 | computes the parse of any text, and ends on any |
| ParserLoops.StatementParser.ParseInsertIntoTable | sql_parser/parser.go:192-232 | computes the parse of a text on which it ends |
| ParserLoops.StatementParser.ParseSelectFromTable | sql_parser/parser.go:309-340 | computes the parse of any text, and ends on any |
| Statements.SelectStatementAnswers | db/select.go:163-193 | from text to rows: over reads that show a table in step and with a plan that is right, as in SelectAnswers, a SELECT lists exactly the rows that meet every condition with its operator as written, each once |
| Statements.WrittenIff | sql_parser/ast.go:22-30 | the five operators by their spelling |
| Statements.InsertStatementIff | db/db.go:280-358 | an INSERT writes anything if and only if its text spells one whose values fit its table |
| Statements.InsertStatementKeeps | db/db.go:280-358 | it then puts the row it spells in place and keeps table and indexes in step |
| Statements.CreateStatementThenStart | db/create.go:11-51 | CREATE TABLE from its text, then a start: the old tables and the one spelt, columns, types and primary key |

## Left out

- EngineTheorems.GetIsMapLookup: with the exact block length and no offsets left behind, which the code intends and does not do; GetAsWrittenInAnyStateIff is about the code as written in every state.
- EngineTheorems.NoErrorNoLie: until a compaction as written has finished, because GetReturnsOverwritten shows that from then on it is false; GetAsWrittenInAnyStateIff says exactly when.
- EngineSteps.RunsKeep: runs are of non-empty keys, records within the reader's limit, data that fits the 32-bit footer, and, where new files do not start empty, new file names not left over on disk (`Granted`), because outside these the exact conditions above apply.
- Database.WriteIsRun: for the class, whose new files are appended to, the name of a flush must not be left over on disk, because of ReusedNameIff.
- Database.CompactionIsRun: likewise for the name of the compacted file.
- ReusedNames.LeftoverScansIff: where one key begins another, rearranged data can still be read in full, so only the one half, IntactScan, holds of all keys.
- StaleOffsets.StaleScanBeyond: what the scan makes of index block and footer is left as the scan of those bytes, because it depends on them alone; the same in StaleReads.AnyEndGet and AnyEndScan.
- TableScans.ReopenIff: asks that a file's data is below 2^32 bytes, because the footer holds 32 bits.
- Commands.PutRoundTrip: asks for a payload below 2^32 bytes, because the length fields hold 32 bits.
- Database.DB.Commit: one commit at a time; commits at the same time are in `ConcurrentCommits`, over tables rather than bytes and with each flush of a file one step.
- Serializability.Serializable: a finished transaction is not used again, because ReuseAfterLeakNeverFrees shows what that does; commit, memtable update and release are separate steps there.
- SsTableStore.SsTable.RunCompaction: a compaction with no flush in between; CompactionIsRun ties it to the step machine, where flushes interleave with it. A merge that fails with an error is carried on with an empty map, as in the code.
- ContendedInserts.ContendedInsertIff: about a row whose primary key is new, and tables and rows as in RunsKeepInStep.
- Statements.SelectStatementAnswers: the repository parses a SELECT and runs one, and leaves it to callers to hand the one to the other; here it is handed on unchanged.
- SecondaryIndexes.RunsKeepInStep: tables with distinct column names, names without colons and not called `index`, canonical colon-free values, and primary keys that are fresh or keep their index entries, because keys are joined with colons and InsertInStepIff rules out the others.
- IndexQueries.IndexPathIsRightIff: for equality conditions some row can meet; for other queries IndexPathAnswers says what comes back.
- ParserLoops.StatementParser.ParseInsertIntoTable: asks for a text on which the parser ends, because on others it does not.
- Transactions.Transaction.Commit: one commit at a time, as for `DB.Commit`; the runs of `Serializability` take its steps apart.
- EngineQueries.SelectOverEngine: until a compaction as written has finished; memtable and files are scanned in one state, where the code takes no lock across the two.
- QueryLoops.InsertIntoTable: with every lock granted; `ContendedInserts` has the locks.
- UTF-8: parsed statements are strings and stored rows are bytes, and `Statements` takes the encoding between them as a parameter.
- Locks are values in a map here; the code shares its `LocksAcquired` records with nothing beyond the map.
- Mutexes, goroutine scheduling and memory-model races: each locked region is one step.
- Real file-system calls, `fsync`, permissions and the JSON of the manifest: files, log and manifest are durable variables, updated in order. A table file is written in pieces of any length; the manifest is saved in one step.
- CRC-32 itself: any function stands for it. Altered bytes are read exactly where they are a record again (PayloadIff); how likely that is is not part of this model.
- The B-tree: a map whose ascending iteration is given.
- The `skipIndex` path with its linear search, which reads an older text format.
- Startup.TableDB.CreateTable: no other write between its three puts; CreateIsRun and CreateThenStart stop after any of them.
- Startup.StartAsWrittenIff: about stores whose catalog records were all written; CatalogStore.OnePutIff and TwoPutsIff are about the others, with the exact block length.
- Column projection, which SELECT does not do, the REPL, logging and error texts.
- The error values of the parsers: a refused text is just refused.
- Upper case, spaces, letters and digits of Unicode: any classes that keep symbols, operators and words apart and treat A to Z as capital letters.
