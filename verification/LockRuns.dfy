/** The lock table over whole runs, told from what each transaction has done: what it holds while
    it works, and what it leaves behind (db/transaction.go). */
module LockRuns {
  import opened ByteStrings
  import opened Tables
  import opened Locks
  import opened Serializability
  import opened CommitOrder

  // ----- one entry of the table -----

  predicate IsWriter(table: LockTable, key: Bytes, id: TxnId) {
    key in table && table[key].writer == id
  }

  predicate IsReader(table: LockTable, key: Bytes, id: TxnId) {
    key in table && id in table[key].readers
  }

  /** Two tables say the same of a transaction on a key. */
  predicate SameSides(table: LockTable, after: LockTable, key: Bytes, id: TxnId) {
    (IsWriter(after, key, id) <==> IsWriter(table, key, id)) && (IsReader(after, key, id) <==> IsReader(table, key, id))
  }

  lemma WriteElsewhere(table: LockTable, held: seq<Bytes>, id: TxnId, key: Bytes, k: Bytes, o: TxnId)
    requires AcquireWrite(table, held, id, key).Granted? && o != NOBODY && (o != id || k != key)
    ensures SameSides(table, AcquireWrite(table, held, id, key).table, k, o)
  {
    var l := LocksOn(table, key);
    if |l.readers| == 1 {
      assert l.readers == [l.readers[0]];
    }
  }

  lemma ReadElsewhere(table: LockTable, held: seq<Bytes>, id: TxnId, key: Bytes, k: Bytes, o: TxnId)
    requires AcquireRead(table, held, id, key).Granted? && o != NOBODY && (o != id || k != key)
    ensures SameSides(table, AcquireRead(table, held, id, key).table, k, o)
  {
  }

  lemma ReleaseElsewhere(table: LockTable, held: seq<Bytes>, id: TxnId, k: Bytes, o: TxnId)
    requires TableOk(table) && Remembers(table, held, id) && o != id && o != NOBODY
    ensures SameSides(table, ReleaseAll(table, held, id), k, o)
  {
    hide TableOk, Exclusive;
    if k in held {
      var i :| 0 <= i < |held| && held[i] == k;
      ReleaseAllAt(table, held, id, i);
      WithoutSpec(LocksOn(table, k).readers, id);
      assert Names(table, k, id);
    } else {
      ReleaseAllUntouched(table, held, id, k);
    }
  }

  // ----- what operations amount to -----

  ghost predicate Wrote(ops: seq<Op>, key: Bytes) {
    exists i :: 0 <= i < |ops| && ops[i].Write? && ops[i].key == key
  }

  /** Read, or, where the transaction has written the key, read after the first of these writes. */
  ghost predicate ReadSince(ops: seq<Op>, key: Bytes) {
    exists j :: 0 <= j < |ops| && ops[j].Read? && ops[j].key == key && (Wrote(ops, key) ==> Wrote(ops[..j], key))
  }

  lemma WroteAfter(ops: seq<Op>, op: Op, key: Bytes)
    ensures Wrote(ops + [op], key) <==> Wrote(ops, key) || (op.Write? && op.key == key)
  {
    var all := ops + [op];
    if Wrote(ops, key) {
      var i :| 0 <= i < |ops| && ops[i].Write? && ops[i].key == key;
      assert all[i] == ops[i];
    }
    if op.Write? && op.key == key {
      assert all[|ops|] == op;
    }
    if Wrote(all, key) {
      var i :| 0 <= i < |all| && all[i].Write? && all[i].key == key;
      assert i < |ops| ==> ops[i] == all[i];
    }
  }

  lemma ReadSinceAfter(ops: seq<Op>, op: Op, key: Bytes)
    ensures ReadSince(ops + [op], key) <==>
      if op.key != key then ReadSince(ops, key)
      else op.Read? || (Wrote(ops, key) && ReadSince(ops, key))
  {
    hide Wrote;
    var all := ops + [op];
    WroteAfter(ops, op, key);
    assert forall j :: 0 <= j <= |ops| ==> all[..j] == ops[..j];
    assert all[..|ops|] == ops && all[|ops|] == op;
    if op.Read? && op.key == key {
      assert all[|ops|].Read?;
    }
    forall j | 0 <= j < |ops|
      ensures all[j] == ops[j]
    {
    }
    WroteNothing(ops, key);
  }

  lemma WroteNothing(ops: seq<Op>, key: Bytes)
    ensures forall j :: 0 <= j < |ops| && Wrote(ops[..j], key) ==> Wrote(ops, key)
  {
    forall j | 0 <= j < |ops| && Wrote(ops[..j], key)
      ensures Wrote(ops, key)
    {
      var i :| 0 <= i < j && ops[..j][i].Write? && ops[..j][i].key == key;
      assert ops[i] == ops[..j][i];
    }
  }

  // ----- over runs -----

  /** A transaction at work is the writer of what it has written and among the readers of what it
      has read since; one that has ended is left on what it has read after writing it. */
  ghost predicate EntryOk(locks: LockTable, t: Txn, id: TxnId, key: Bytes) {
    if t.phase.Done? then Names(locks, key, id) <==> Wrote(t.ops, key) && ReadSince(t.ops, key)
    else (IsWriter(locks, key, id) <==> Wrote(t.ops, key)) && (IsReader(locks, key, id) <==> ReadSince(t.ops, key))
  }

  lemma SameEntry(table: LockTable, after: LockTable, t: Txn, id: TxnId, key: Bytes)
    requires SameSides(table, after, key, id) && EntryOk(table, t, id, key)
    ensures EntryOk(after, t, id, key)
  {
    hide Wrote, ReadSince;
  }

  lemma GetKeepsEntry(m: Manager, asker: TxnId, k: Bytes, id: TxnId, key: Bytes)
    requires Inv(m) && CanAct(m, TxnGet(asker, k)) && id in m.txns && EntryOk(m.locks, m.txns[id], id, key)
    ensures EntryOk(Do(m, TxnGet(asker, k)).locks, Do(m, TxnGet(asker, k)).txns[id], id, key)
  {
    hide AcquireRead, Wrote, ReadSince, TxnOk, StoreAt, SerialLegal, TableOk, TxnGetResult;
    var t := m.txns[asker];
    var a := AcquireRead(m.locks, t.held, asker, k);
    if a.Granted? {
      if asker == id {
        WroteAfter(t.ops, Read(k, TxnGetResult(m, id, k)), key);
        ReadSinceAfter(t.ops, Read(k, TxnGetResult(m, id, k)), key);
      }
      if asker == id && k == key {
        ReadHere(m.locks, t.held, id, key);
      } else {
        ReadElsewhere(m.locks, t.held, asker, k, key, id);
      }
    }
  }

  lemma ReadHere(table: LockTable, held: seq<Bytes>, id: TxnId, key: Bytes)
    requires AcquireRead(table, held, id, key).Granted? && id != NOBODY
    ensures var after := AcquireRead(table, held, id, key).table;
      IsReader(after, key, id) && (IsWriter(after, key, id) <==> IsWriter(table, key, id))
  {
  }

  lemma WriteHere(table: LockTable, held: seq<Bytes>, id: TxnId, key: Bytes)
    requires AcquireWrite(table, held, id, key).Granted? && id != NOBODY
    ensures var after := AcquireWrite(table, held, id, key).table;
      IsWriter(after, key, id) && (IsReader(after, key, id) <==> IsWriter(table, key, id) && IsReader(table, key, id))
  {
  }

  lemma PutKeepsEntry(m: Manager, asker: TxnId, k: Bytes, v: Bytes, id: TxnId, key: Bytes)
    requires Inv(m) && CanAct(m, TxnPut(asker, k, v)) && id in m.txns && EntryOk(m.locks, m.txns[id], id, key)
    ensures EntryOk(Do(m, TxnPut(asker, k, v)).locks, Do(m, TxnPut(asker, k, v)).txns[id], id, key)
  {
    hide AcquireWrite, Wrote, ReadSince, TxnOk, StoreAt, SerialLegal, TableOk;
    var t := m.txns[asker];
    var a := AcquireWrite(m.locks, t.held, asker, k);
    if a.Granted? {
      if asker == id {
        WroteAfter(t.ops, Write(k, v), key);
        ReadSinceAfter(t.ops, Write(k, v), key);
      }
      if asker == id && k == key {
        WriteHere(m.locks, t.held, id, key);
      } else {
        WriteElsewhere(m.locks, t.held, asker, k, key, id);
      }
    }
  }

  lemma FinishKeepsEntry(m: Manager, ended: TxnId, id: TxnId, key: Bytes)
    requires Inv(m) && ended in m.txns && !m.txns[ended].phase.Done? && id in m.txns && EntryOk(m.locks, m.txns[id], id, key)
    ensures EntryOk(Finish(m, ended).locks, Finish(m, ended).txns[id], id, key)
  {
    hide ReleaseAll, Wrote, ReadSince, StoreAt, SerialLegal, TableOk;
    var t := m.txns[ended];
    assert TxnOk(m, ended);
    if ended == id {
      LeakIff(m.locks, t.held, id, key);
    } else {
      ReleaseElsewhere(m.locks, t.held, ended, key, id);
    }
  }

  /** A new transaction is named nowhere and has done nothing. */
  lemma BeginKeepsEntry(m: Manager, id: TxnId, key: Bytes)
    requires Inv(m) && (id in m.txns ==> EntryOk(m.locks, m.txns[id], id, key)) && id in Do(m, Begin).txns
    ensures EntryOk(Do(m, Begin).locks, Do(m, Begin).txns[id], id, key)
  {
    hide TxnOk, StoreAt, SerialLegal, TableOk;
    assert !Names(m.locks, key, m.nextId);
  }

  lemma ActKeepsEntry(m: Manager, a: Act, id: TxnId, key: Bytes)
    requires Inv(m) && CanAct(m, a) && id in Do(m, a).txns
    requires id in m.txns ==> EntryOk(m.locks, m.txns[id], id, key)
    ensures EntryOk(Do(m, a).locks, Do(m, a).txns[id], id, key)
  {
    hide EntryOk, Inv, ReleaseAll;
    match a
    case Begin => BeginKeepsEntry(m, id, key);
    case TxnGet(asker, k) => GetKeepsEntry(m, asker, k, id, key);
    case TxnPut(asker, k, v) => PutKeepsEntry(m, asker, k, v, id, key);
    case CommitRelease(ended) => FinishKeepsEntry(m, ended, id, key);
    case Rollback(ended) => FinishKeepsEntry(m, ended, id, key);
    case CommitLog(ended) => PhaseKeepsEntry(m, a, id, key);
    case CommitApply(ended, _) => PhaseKeepsEntry(m, a, id, key);
    case PlainPut(_, _) =>
  }

  lemma PhaseKeepsEntry(m: Manager, a: Act, id: TxnId, key: Bytes)
    requires CanAct(m, a) && (a.CommitLog? || a.CommitApply?) && id in m.txns && EntryOk(m.locks, m.txns[id], id, key)
    ensures EntryOk(Do(m, a).locks, Do(m, a).txns[id], id, key)
  {
    hide Wrote, ReadSince;
  }

  lemma {:induction false} RunsKeepEntries(acts: seq<Act>, m: Manager, id: TxnId, key: Bytes)
    requires Reaches(acts, m) && id in m.txns
    ensures EntryOk(m.locks, m.txns[id], id, key)
    decreases |acts|
  {
    hide EntryOk, Inv, Do, CanAct, Considerate;
    if acts != [] {
      var n := |acts| - 1;
      var m0 := Run(acts[..n]).value;
      RunsStayOk(acts[..n], m0);
      if id in m0.txns {
        RunsKeepEntries(acts[..n], m0, id, key);
      }
      ActKeepsEntry(m0, acts[n], id, key);
    }
  }

  /** In every state of every run a transaction that has not ended is the writer of exactly the
      keys it was granted a put on, and among the readers of exactly those it was granted a get
      on, since its first put there if it has one. */
  lemma HoldsWhatItAskedFor(acts: seq<Act>, m: Manager, id: TxnId, key: Bytes)
    requires Reaches(acts, m) && id in m.txns && !m.txns[id].phase.Done?
    ensures IsWriter(m.locks, key, id) <==> Wrote(Performed(acts, id), key)
    ensures IsReader(m.locks, key, id) <==> ReadSince(Performed(acts, id), key)
  {
    hide Wrote, ReadSince, Reaches, Performed;
    OpsArePerformed(acts, m, id);
    RunsKeepEntries(acts, m, id, key);
  }

  /** When it has ended, committed or rolled back, it has given back every lock except on exactly
      the keys it was granted a get on after a put. */
  lemma LeavesBehindIff(acts: seq<Act>, m: Manager, id: TxnId, key: Bytes)
    requires Reaches(acts, m) && id in m.txns && m.txns[id].phase.Done?
    ensures Names(m.locks, key, id) <==> Wrote(Performed(acts, id), key) && ReadSince(Performed(acts, id), key)
  {
    hide Wrote, ReadSince, Reaches, Performed;
    OpsArePerformed(acts, m, id);
    RunsKeepEntries(acts, m, id, key);
  }
}
