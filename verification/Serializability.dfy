/** Every run of the two-phase-locking transactions is serializable in commit order
    (db/transaction.go). A commit is not one step: its log record fixes its place in the
    order, then its writes reach the store one by one, then its locks go. */
module Serializability {
  import opened ByteStrings
  import opened Tables
  import opened Locks

  // ----- transactions on their own -----

  datatype Op = Read(key: Bytes, value: Bytes) | Write(key: Bytes, value: Bytes)

  /** What a transaction's own writes leave in its buffer. */
  function Buffer(ops: seq<Op>): Table {
    if ops == [] then map[]
    else
      var b := Buffer(ops[..|ops| - 1]);
      match ops[|ops| - 1]
      case Read(_, _) => b
      case Write(k, v) => b[k := v]
  }

  /** Every read of `ops` returns what it would if the transaction ran alone on `base`: its own
      write if there was one, the base otherwise, absent reading as empty. */
  predicate Legal(base: Table, ops: seq<Op>) {
    ops == [] ||
    (var n := |ops| - 1;
     Legal(base, ops[..n]) &&
     (ops[n].Read? ==> ops[n].value == Lookup(base + Buffer(ops[..n]), ops[n].key)))
  }

  /** The keys a transaction has taken from the base. */
  function BaseReads(ops: seq<Op>): set<Bytes> {
    if ops == [] then {}
    else
      var n := |ops| - 1;
      BaseReads(ops[..n]) +
        if ops[n].Read? && ops[n].key !in Buffer(ops[..n]) then {ops[n].key} else {}
  }

  /** Running whole transactions one after another. */
  function SerialStore(history: seq<seq<Op>>): Table {
    if history == [] then map[] else SerialStore(history[..|history| - 1]) + Buffer(history[|history| - 1])
  }

  predicate SerialLegal(history: seq<seq<Op>>) {
    history == [] ||
    (SerialLegal(history[..|history| - 1]) && Legal(SerialStore(history[..|history| - 1]), history[|history| - 1]))
  }

  /** Only the keys taken from the base matter. */
  lemma {:induction false} LegalStable(base: Table, base': Table, ops: seq<Op>)
    requires Legal(base, ops)
    requires forall k :: k in BaseReads(ops) ==> Lookup(base, k) == Lookup(base', k)
    ensures Legal(base', ops)
  {
    if ops != [] {
      var n := |ops| - 1;
      LegalStable(base, base', ops[..n]);
      LookupOver(base, Buffer(ops[..n]), ops[n].key);
      LookupOver(base', Buffer(ops[..n]), ops[n].key);
    }
  }

  lemma LookupOver(base: Table, top: Table, k: Bytes)
    ensures Lookup(base + top, k) == if k in top then top[k] else Lookup(base, k)
  {
  }

  lemma {:induction false} LegalPins(base: Table, base': Table, ops: seq<Op>, k: Bytes)
    requires Legal(base, ops) && Legal(base', ops) && k in BaseReads(ops)
    ensures Lookup(base, k) == Lookup(base', k)
  {
    var n := |ops| - 1;
    if k in BaseReads(ops[..n]) {
      LegalPins(base, base', ops[..n], k);
    }
  }

  // ----- the manager -----

  datatype Phase = Live | Committing(left: set<Bytes>) | Done

  datatype Txn = Txn(buffer: Table, held: seq<Bytes>, ops: seq<Op>, phase: Phase)

  /** `history` lists the operations of the committed transactions in the order of their log
      records; a write outside any transaction counts as one of its own. */
  datatype Manager = Manager(
    locks: LockTable, txns: map<TxnId, Txn>, nextId: TxnId, store: Table, history: seq<seq<Op>>)

  const FRESH := Manager(map[], map[], 1, map[], [])

  datatype Act =
    | Begin
    | TxnGet(id: TxnId, key: Bytes)
    | TxnPut(id: TxnId, key: Bytes, value: Bytes)
    | CommitLog(id: TxnId)
    | CommitApply(id: TxnId, key: Bytes)
    | CommitRelease(id: TxnId)
    | Rollback(id: TxnId)
    | PlainPut(key: Bytes, value: Bytes)

  predicate CanAct(m: Manager, a: Act) {
    match a
    case Begin => true
    case TxnGet(id, _) => id in m.txns && m.txns[id].phase.Live?
    case TxnPut(id, _, _) => id in m.txns && m.txns[id].phase.Live?
    case CommitLog(id) => id in m.txns && m.txns[id].phase.Live?
    case CommitApply(id, key) =>
      id in m.txns && m.txns[id].phase.Committing? && key in m.txns[id].phase.left && key in m.txns[id].buffer
    case CommitRelease(id) => id in m.txns && m.txns[id].phase == Committing({})
    case Rollback(id) => id in m.txns && m.txns[id].phase.Live?
    case PlainPut(_, _) => true
  }

  function TxnGetResult(m: Manager, id: TxnId, key: Bytes): Bytes
    requires id in m.txns
  {
    if key in m.txns[id].buffer then m.txns[id].buffer[key] else Lookup(m.store, key)
  }

  function Finish(m: Manager, id: TxnId): Manager
    requires id in m.txns
  {
    var t := m.txns[id];
    m.(locks := ReleaseAll(m.locks, t.held, id), txns := m.txns[id := Txn(map[], [], t.ops, Done)])
  }

  /** A refused lock changes nothing; the caller decides what to do next. */
  function Do(m: Manager, a: Act): Manager
    requires CanAct(m, a)
  {
    match a
    case Begin => m.(txns := m.txns[m.nextId := Txn(map[], [], [], Live)], nextId := m.nextId + 1)
    case TxnGet(id, key) =>
      var t := m.txns[id];
      (match AcquireRead(m.locks, t.held, id, key)
       case Refused(_) => m
       case Granted(table, held) =>
         m.(locks := table,
            txns := m.txns[id := t.(held := held, ops := t.ops + [Read(key, TxnGetResult(m, id, key))])]))
    case TxnPut(id, key, value) =>
      var t := m.txns[id];
      (match AcquireWrite(m.locks, t.held, id, key)
       case Refused(_) => m
       case Granted(table, held) =>
         m.(locks := table,
            txns := m.txns[id := t.(held := held, buffer := t.buffer[key := value], ops := t.ops + [Write(key, value)])]))
    case CommitLog(id) =>
      var t := m.txns[id];
      m.(txns := m.txns[id := t.(phase := Committing(t.buffer.Keys))], history := m.history + [t.ops])
    case CommitApply(id, key) =>
      var t := m.txns[id];
      m.(store := m.store[key := t.buffer[key]], txns := m.txns[id := t.(phase := Committing(t.phase.left - {key}))])
    case CommitRelease(id) => Finish(m, id)
    case Rollback(id) => Finish(m, id)
    case PlainPut(key, value) =>
      m.(store := m.store[key := value], history := m.history + [[Write(key, value)]])
  }

  /** `DB.Put` does not look at the lock table. Such a write is harmless when it changes nothing
      a live transaction has taken from the store, and no commit under way still has to bring
      another value of the key there. */
  predicate Harmless(m: Manager, key: Bytes, value: Bytes) {
    && (forall id :: id in m.txns && m.txns[id].phase.Live? && key in BaseReads(m.txns[id].ops) ==>
         Lookup(m.store, key) == value)
    && (forall id :: id in m.txns && m.txns[id].phase.Committing? && key in m.txns[id].phase.left && key in m.txns[id].buffer ==>
         m.txns[id].buffer[key] == value)
  }

  /** Runs are held to harmless writes outside transactions. */
  predicate Considerate(m: Manager, a: Act) {
    a.PlainPut? ==> Harmless(m, a.key, a.value)
  }

  /** The state after these acts, if each could be taken in its turn. */
  function Run(acts: seq<Act>): Option<Manager>
    decreases |acts|
  {
    if acts == [] then Some(FRESH)
    else
      var n := |acts| - 1;
      match Run(acts[..n])
      case None => None
      case Some(m) => if CanAct(m, acts[n]) && Considerate(m, acts[n]) then Some(Do(m, acts[n])) else None
  }

  predicate Reaches(acts: seq<Act>, m: Manager) {
    Run(acts) == Some(m)
  }

  // ----- the invariant -----

  /** A transaction at work remembers exactly its locks, writes only what it has locked for
      writing, and has a lock on everything it took from the store. */
  ghost predicate TxnLocked(m: Manager, id: TxnId)
    requires id in m.txns
  {
    var t := m.txns[id];
    && Remembers(m.locks, t.held, id)
    && t.buffer == Buffer(t.ops)
    && (forall k :: k in t.buffer ==> k in m.locks && m.locks[k].writer == id)
    && (forall k :: k in BaseReads(t.ops) ==> Names(m.locks, k, id))
  }

  ghost predicate TxnOk(m: Manager, id: TxnId)
    requires id in m.txns
  {
    var t := m.txns[id];
    && (t.phase.Done? || TxnLocked(m, id))
    && (t.phase.Live? ==> Legal(SerialStore(m.history), t.ops))
    && (t.phase.Committing? ==> t.phase.left <= t.buffer.Keys)
  }

  /** Some committing transaction still has to bring its write of the key to the store. */
  ghost predicate Awaited(m: Manager, key: Bytes) {
    exists id :: id in m.txns && m.txns[id].phase.Committing? && key in m.txns[id].phase.left
  }

  /** The store agrees with the serial store except for the writes still on their way. */
  ghost predicate StoreAt(m: Manager, key: Bytes) {
    && (!Awaited(m, key) ==>
         (key in m.store <==> key in SerialStore(m.history))
         && (key in m.store ==> m.store[key] == SerialStore(m.history)[key]))
    && (forall id :: id in m.txns && m.txns[id].phase.Committing? && key in m.txns[id].phase.left && key in m.txns[id].buffer ==>
         key in SerialStore(m.history) && SerialStore(m.history)[key] == m.txns[id].buffer[key])
  }

  ghost predicate Inv(m: Manager) {
    && TableOk(m.locks)
    && m.nextId != NOBODY
    && (forall id :: id in m.txns ==> id != NOBODY && id < m.nextId)
    && (forall k, id: TxnId :: Names(m.locks, k, id) && id != NOBODY ==> id < m.nextId)
    && (forall id :: id in m.txns ==> TxnOk(m, id))
    && (forall key :: StoreAt(m, key))
    && SerialLegal(m.history)
  }

  // ----- each act keeps it -----

  lemma BufferAppend(ops: seq<Op>, op: Op)
    ensures Buffer(ops + [op]) == match op
      case Read(_, _) => Buffer(ops)
      case Write(k, v) => Buffer(ops)[k := v]
    ensures BaseReads(ops + [op]) == BaseReads(ops) +
      if op.Read? && op.key !in Buffer(ops) then {op.key} else {}
  {
    assert (ops + [op])[..|ops|] == ops;
  }

  lemma LegalAppend(base: Table, ops: seq<Op>, op: Op)
    ensures Legal(base, ops + [op]) <==>
      Legal(base, ops) && (op.Read? ==> op.value == Lookup(base + Buffer(ops), op.key))
  {
    assert (ops + [op])[..|ops|] == ops;
  }

  lemma SerialAppend(history: seq<seq<Op>>, ops: seq<Op>)
    ensures SerialStore(history + [ops]) == SerialStore(history) + Buffer(ops)
    ensures SerialLegal(history + [ops]) <==> SerialLegal(history) && Legal(SerialStore(history), ops)
  {
    assert (history + [ops])[..|history|] == history;
  }

  /** A key on which a transaction is named is not being written by anyone else. */
  lemma NamedNotAwaited(m: Manager, id: TxnId, key: Bytes)
    requires Inv(m) && id in m.txns && !m.txns[id].phase.Done? && Names(m.locks, key, id)
    ensures forall other :: other in m.txns && other != id && m.txns[other].phase.Committing? ==> key !in m.txns[other].phase.left
  {
    forall other | other in m.txns && other != id && m.txns[other].phase.Committing?
      ensures key !in m.txns[other].phase.left
    {
      assert TxnOk(m, other);
      assert Exclusive(m.locks[key]);
    }
  }

  /** So what a live transaction reads is what it would read running alone right now. */
  lemma ReadIsCurrent(m: Manager, id: TxnId, key: Bytes)
    requires Inv(m) && id in m.txns && m.txns[id].phase.Live?
    requires AcquireRead(m.locks, m.txns[id].held, id, key).Granted?
    ensures TxnGetResult(m, id, key) == Lookup(SerialStore(m.history) + Buffer(m.txns[id].ops), key)
  {
    hide SerialStore, Buffer, Legal, BaseReads;
    assert TxnOk(m, id);
    if key !in m.txns[id].buffer {
      forall other | other in m.txns && m.txns[other].phase.Committing?
        ensures key !in m.txns[other].phase.left
      {
        assert TxnOk(m, other);
        GrantedMeansAlone(m.locks, m.txns[id].held, id, key, other);
      }
      assert StoreAt(m, key);
    }
  }

  /** Another transaction is untouched by a change of the lock table that leaves its names and
      writers alone. */
  lemma OtherTxnOk(m: Manager, m': Manager, other: TxnId)
    requires other in m.txns && other in m'.txns && m'.txns[other] == m.txns[other]
    requires TxnOk(m, other) && m'.history == m.history
    requires !m.txns[other].phase.Done? ==> forall k :: Names(m'.locks, k, other) <==> Names(m.locks, k, other)
    requires !m.txns[other].phase.Done? ==> forall k :: k in m.locks && m.locks[k].writer == other ==>
      k in m'.locks && m'.locks[k].writer == other
    ensures TxnOk(m', other)
  {
    hide SerialStore, Buffer, Legal, BaseReads, Names;
  }

  lemma WritersStay(m: Manager, id: TxnId, key: Bytes, other: TxnId, k: Bytes)
    requires Inv(m) && id in m.txns && id != other && other != NOBODY
    requires k in m.locks && m.locks[k].writer == other
    ensures var w := AcquireWrite(m.locks, m.txns[id].held, id, key);
      w.Granted? ==> k in w.table && w.table[k].writer == other
    ensures var r := AcquireRead(m.locks, m.txns[id].held, id, key);
      r.Granted? ==> k in r.table && r.table[k].writer == other
  {
  }

  /** The parts of the invariant that do not depend on who asked for which lock. */
  lemma SameStore(m: Manager, m': Manager, id: TxnId)
    requires Inv(m) && id in m.txns && m.txns[id].phase.Live?
    requires m'.txns.Keys == m.txns.Keys && m'.txns[id].phase.Live?
    requires forall o :: o in m.txns && o != id ==> m'.txns[o] == m.txns[o]
    requires m'.store == m.store && m'.history == m.history
    ensures forall key :: StoreAt(m', key)
  {
    hide SerialStore;
    forall key
      ensures StoreAt(m', key)
    {
      assert StoreAt(m, key);
      assert Awaited(m', key) <==> Awaited(m, key);
    }
  }

  lemma GetKeeps(m: Manager, id: TxnId, key: Bytes)
    requires Inv(m) && CanAct(m, TxnGet(id, key))
    ensures Inv(Do(m, TxnGet(id, key)))
  {
    hide SerialStore, Buffer, Legal, BaseReads, SerialLegal, AcquireRead;
    var t := m.txns[id];
    var a, m' := AcquireRead(m.locks, t.held, id, key), Do(m, TxnGet(id, key));
    if a.Granted? {
      var op := Read(key, TxnGetResult(m, id, key));
      assert TxnOk(m, id);
      AcquireReadKeeps(m.locks, t.held, id, key);
      BufferAppend(t.ops, op);
      LegalAppend(SerialStore(m.history), t.ops, op);
      ReadIsCurrent(m, id, key);
      SameStore(m, m', id);
      forall k | Names(m.locks, k, id)
        ensures Names(a.table, k, id)
      {
        ReadKeepsOwn(m.locks, t.held, id, key, k);
      }
      forall k | k in t.buffer
        ensures k in a.table && a.table[k].writer == id
      {
        ReadKeepsOwn(m.locks, t.held, id, key, k);
      }
      OthersAfterLock(m, m', id, key);
      NamesBounded(m, m', id, key);
    }
  }

  lemma ReadKeepsOwn(table: LockTable, held: seq<Bytes>, id: TxnId, key: Bytes, k: Bytes)
    requires k in table && AcquireRead(table, held, id, key).Granted?
    ensures var a := AcquireRead(table, held, id, key);
      && k in a.table && a.table[k].writer == table[k].writer
      && (Names(table, k, id) ==> Names(a.table, k, id))
  {
  }

  lemma WriteKeepsOwn(table: LockTable, held: seq<Bytes>, id: TxnId, key: Bytes, k: Bytes)
    requires k in table && AcquireWrite(table, held, id, key).Granted?
    ensures var a := AcquireWrite(table, held, id, key);
      && k in a.table && (table[k].writer == id ==> a.table[k].writer == id)
      && (Names(table, k, id) ==> Names(a.table, k, id))
  {
  }

  /** A lock attempt of one transaction leaves the others as they were. */
  lemma OthersAfterLock(m: Manager, m': Manager, id: TxnId, key: Bytes)
    requires Inv(m) && id in m.txns && m'.txns.Keys == m.txns.Keys && m'.history == m.history
    requires forall o :: o in m.txns && o != id ==> m'.txns[o] == m.txns[o]
    requires AcquireRead(m.locks, m.txns[id].held, id, key) == Granted(m'.locks, m'.txns[id].held)
      || AcquireWrite(m.locks, m.txns[id].held, id, key) == Granted(m'.locks, m'.txns[id].held)
    ensures forall o :: o in m.txns && o != id ==> TxnOk(m', o)
  {
    hide AcquireRead, AcquireWrite, TxnOk, TableOk, SerialLegal, SerialStore, StoreAt;
    forall o | o in m.txns && o != id
      ensures TxnOk(m', o)
    {
      forall k
        ensures Names(m'.locks, k, o) <==> Names(m.locks, k, o)
      {
        AttemptsLeaveOthers(m.locks, m.txns[id].held, id, key, o, k);
      }
      forall k | k in m.locks && m.locks[k].writer == o
        ensures k in m'.locks && m'.locks[k].writer == o
      {
        WritersStay(m, id, key, o, k);
      }
      OtherTxnOk(m, m', o);
    }
  }

  lemma NamesBounded(m: Manager, m': Manager, id: TxnId, key: Bytes)
    requires Inv(m) && id in m.txns && m'.nextId == m.nextId && id in m'.txns
    requires AcquireRead(m.locks, m.txns[id].held, id, key) == Granted(m'.locks, m'.txns[id].held)
      || AcquireWrite(m.locks, m.txns[id].held, id, key) == Granted(m'.locks, m'.txns[id].held)
    ensures forall k, o: TxnId :: Names(m'.locks, k, o) && o != NOBODY ==> o < m'.nextId
  {
    hide AcquireRead, AcquireWrite, TxnOk, TableOk, SerialLegal, SerialStore, StoreAt;
    forall k, o: TxnId | Names(m'.locks, k, o) && o != NOBODY
      ensures o < m'.nextId
    {
      if o != id {
        AttemptsLeaveOthers(m.locks, m.txns[id].held, id, key, o, k);
      }
    }
  }

  lemma PutKeeps(m: Manager, id: TxnId, key: Bytes, value: Bytes)
    requires Inv(m) && CanAct(m, TxnPut(id, key, value))
    ensures Inv(Do(m, TxnPut(id, key, value)))
  {
    hide SerialStore, Buffer, Legal, BaseReads, SerialLegal, AcquireWrite;
    var t := m.txns[id];
    var a, m' := AcquireWrite(m.locks, t.held, id, key), Do(m, TxnPut(id, key, value));
    if a.Granted? {
      var op := Write(key, value);
      assert TxnOk(m, id);
      AcquireWriteKeeps(m.locks, t.held, id, key);
      BufferAppend(t.ops, op);
      LegalAppend(SerialStore(m.history), t.ops, op);
      SameStore(m, m', id);
      forall k | k in m.locks
        ensures k in a.table && (m.locks[k].writer == id ==> a.table[k].writer == id)
        ensures Names(m.locks, k, id) ==> Names(a.table, k, id)
      {
        WriteKeepsOwn(m.locks, t.held, id, key, k);
      }
      OthersAfterLock(m, m', id, key);
      NamesBounded(m, m', id, key);
    }
  }

  lemma BeginKeeps(m: Manager)
    requires Inv(m)
    ensures Inv(Do(m, Begin))
  {
    hide SerialStore, SerialLegal, TableOk;
    var m', id := Do(m, Begin), m.nextId;
    assert id !in m.txns;
    forall key
      ensures StoreAt(m', key)
    {
      assert StoreAt(m, key);
      if Awaited(m, key) {
        var o :| o in m.txns && m.txns[o].phase.Committing? && key in m.txns[o].phase.left;
        assert o in m'.txns && m'.txns[o] == m.txns[o];
      }
    }
    forall o | o in m'.txns
      ensures TxnOk(m', o)
    {
      if o != id {
        OtherTxnOk(m, m', o);
      } else {
        assert forall k :: !Names(m.locks, k, id);
      }
    }
  }

  /** Committing fixes the transaction's place: it is legal there, and nothing another live
      transaction has taken from the store changes. */
  lemma CommitLogKeeps(m: Manager, id: TxnId)
    requires Inv(m) && CanAct(m, CommitLog(id))
    ensures Inv(Do(m, CommitLog(id)))
  {
    hide SerialStore, Buffer, Legal, BaseReads, SerialLegal, TableOk;
    var t, m' := m.txns[id], Do(m, CommitLog(id));
    assert TxnOk(m, id);
    SerialAppend(m.history, t.ops);
    forall o | o in m'.txns
      ensures TxnOk(m', o)
    {
      assert TxnOk(m, o);
      if o != id && m.txns[o].phase.Live? {
        forall k | k in BaseReads(m.txns[o].ops)
          ensures k !in t.buffer
        {
          WriterShutsOut(m, id, o, k);
        }
        LegalStable(SerialStore(m.history), SerialStore(m'.history), m.txns[o].ops);
      }
    }
    forall key
      ensures StoreAt(m', key)
    {
      CommitLogStore(m, id, key);
    }
  }

  lemma WriterShutsOut(m: Manager, id: TxnId, other: TxnId, k: Bytes)
    requires TableOk(m.locks) && id != NOBODY && other != id && other != NOBODY && Names(m.locks, k, other)
    ensures m.locks[k].writer != id
  {
    assert Exclusive(m.locks[k]);
  }

  lemma CommitLogStore(m: Manager, id: TxnId, key: Bytes)
    requires Inv(m) && CanAct(m, CommitLog(id))
    ensures StoreAt(Do(m, CommitLog(id)), key)
  {
    hide SerialStore, Buffer, Legal, BaseReads, SerialLegal;
    var t, m' := m.txns[id], Do(m, CommitLog(id));
    assert TxnOk(m, id) && StoreAt(m, key);
    SerialAppend(m.history, t.ops);
    if key in t.buffer {
      assert m'.txns[id].phase.Committing? && key in m'.txns[id].phase.left;
      assert Awaited(m', key);
      assert Names(m.locks, key, id);
      NamedNotAwaited(m, id, key);
    } else if Awaited(m, key) {
      var o :| o in m.txns && m.txns[o].phase.Committing? && key in m.txns[o].phase.left;
      assert m'.txns[o] == m.txns[o];
    }
  }

  /** Bringing one write to the store. */
  lemma CommitApplyKeeps(m: Manager, id: TxnId, key: Bytes)
    requires Inv(m) && CanAct(m, CommitApply(id, key))
    ensures Inv(Do(m, CommitApply(id, key)))
  {
    hide SerialStore, Buffer, Legal, BaseReads, SerialLegal, TableOk;
    var m' := Do(m, CommitApply(id, key));
    assert TxnOk(m, id);
    forall o | o in m'.txns
      ensures TxnOk(m', o)
    {
      assert TxnOk(m, o);
    }
    forall k
      ensures StoreAt(m', k)
    {
      CommitApplyStore(m, id, key, k);
    }
  }

  lemma CommitApplyStore(m: Manager, id: TxnId, key: Bytes, k: Bytes)
    requires Inv(m) && CanAct(m, CommitApply(id, key))
    ensures StoreAt(Do(m, CommitApply(id, key)), k)
  {
    hide SerialStore, Buffer, Legal, BaseReads, SerialLegal;
    var m' := Do(m, CommitApply(id, key));
    assert TxnOk(m, id) && StoreAt(m, k);
    if k != key && Awaited(m, k) {
      var o :| o in m.txns && m.txns[o].phase.Committing? && k in m.txns[o].phase.left;
      assert o in m'.txns && k in m'.txns[o].phase.left;
    }
  }

  /** Releasing the locks, after a commit or for a rollback. */
  lemma FinishKeeps(m: Manager, id: TxnId)
    requires Inv(m) && id in m.txns && (m.txns[id].phase.Live? || m.txns[id].phase == Committing({}))
    ensures Inv(Finish(m, id))
  {
    hide SerialStore, Buffer, Legal, BaseReads, SerialLegal, ReleaseAll, Exclusive, NoRepeats;
    var t, m' := m.txns[id], Finish(m, id);
    assert TxnOk(m, id);
    ReleaseAllTableOk(m.locks, t.held, id);
    forall key
      ensures StoreAt(m', key)
    {
      FinishStore(m, id, key);
    }
    forall k, o: TxnId | Names(m'.locks, k, o) && o != NOBODY
      ensures o < m'.nextId
    {
      if o != id {
        ReleaseLeavesOthers(m.locks, t.held, id, k, o);
      }
    }
    forall o | o in m'.txns
      ensures TxnOk(m', o)
    {
      if o != id {
        FinishOther(m, id, o);
      }
    }
  }

  lemma FinishStore(m: Manager, id: TxnId, key: Bytes)
    requires Inv(m) && id in m.txns && (m.txns[id].phase.Live? || m.txns[id].phase == Committing({}))
    ensures StoreAt(Finish(m, id), key)
  {
    hide SerialStore, SerialLegal, ReleaseAll, TxnOk, TableOk;
    var m' := Finish(m, id);
    assert StoreAt(m, key);
    if Awaited(m, key) {
      var o :| o in m.txns && m.txns[o].phase.Committing? && key in m.txns[o].phase.left;
      assert o != id && m'.txns[o] == m.txns[o];
    }
  }

  lemma FinishOther(m: Manager, id: TxnId, o: TxnId)
    requires Inv(m) && id in m.txns && !m.txns[id].phase.Done? && o in m.txns && o != id
    ensures TxnOk(Finish(m, id), o)
  {
    hide SerialStore, SerialLegal, ReleaseAll, TableOk, NoRepeats, Legal, Buffer, BaseReads, StoreAt;
    var t, m' := m.txns[id], Finish(m, id);
    assert TxnOk(m, id) && TxnOk(m, o);
    forall k
      ensures Names(m'.locks, k, o) <==> Names(m.locks, k, o)
    {
      ReleaseLeavesOthers(m.locks, t.held, id, k, o);
    }
    forall k | k in m.locks && m.locks[k].writer == o
      ensures k in m'.locks && m'.locks[k].writer == o
    {
      ReleaseKeepsWriter(m.locks, t.held, id, k, o);
    }
    OtherTxnOk(m, m', o);
  }

  lemma ReleaseKeepsWriter(table: LockTable, held: seq<Bytes>, id: TxnId, key: Bytes, other: TxnId)
    requires TableOk(table) && Remembers(table, held, id) && other != id && other != NOBODY
    requires key in table && table[key].writer == other
    ensures var after := ReleaseAll(table, held, id);
      key in after && after[key].writer == other
  {
    WriterShutsOutReader(table, key, id, other);
    assert key !in held;
    ReleaseAllUntouched(table, held, id, key);
  }

  lemma WriterShutsOutReader(table: LockTable, key: Bytes, id: TxnId, other: TxnId)
    requires TableOk(table) && key in table && table[key].writer == other && other != NOBODY && id != other
    ensures !Names(table, key, id)
  {
    assert Exclusive(table[key]);
  }

  /** What a live transaction took from the store is what the serial store holds. */
  lemma ReadAgrees(m: Manager, id: TxnId, key: Bytes)
    requires Inv(m) && id in m.txns && m.txns[id].phase.Live? && key in BaseReads(m.txns[id].ops)
    ensures Lookup(m.store, key) == Lookup(SerialStore(m.history), key)
  {
    hide SerialStore, Buffer, Legal, BaseReads, SerialLegal;
    assert TxnOk(m, id);
    NamedNotAwaited(m, id, key);
    assert StoreAt(m, key);
  }

  /** A harmless write outside transactions. */
  lemma PlainPutKeeps(m: Manager, key: Bytes, value: Bytes)
    requires Inv(m) && Harmless(m, key, value)
    ensures Inv(Do(m, PlainPut(key, value)))
  {
    hide SerialStore, Buffer, Legal, BaseReads, SerialLegal, TableOk;
    var m', ops := Do(m, PlainPut(key, value)), [Write(key, value)];
    SerialAppend(m.history, ops);
    OneWrite(SerialStore(m.history), key, value);
    forall o | o in m'.txns
      ensures TxnOk(m', o)
    {
      assert TxnOk(m, o);
      if m.txns[o].phase.Live? {
        if key in BaseReads(m.txns[o].ops) {
          ReadAgrees(m, o, key);
        }
        LegalStable(SerialStore(m.history), SerialStore(m'.history), m.txns[o].ops);
      }
    }
    forall k
      ensures StoreAt(m', k)
    {
      PlainPutStore(m, key, value, k);
    }
  }

  lemma OneWrite(base: Table, key: Bytes, value: Bytes)
    ensures Buffer([Write(key, value)]) == map[key := value] && Legal(base, [Write(key, value)])
    ensures base + map[key := value] == base[key := value]
  {
    assert [Write(key, value)][..0] == [];
  }

  lemma PlainPutStore(m: Manager, key: Bytes, value: Bytes, k: Bytes)
    requires Inv(m) && Harmless(m, key, value)
    ensures StoreAt(Do(m, PlainPut(key, value)), k)
  {
    hide SerialStore, Buffer, Legal, BaseReads, SerialLegal, TableOk;
    var m' := Do(m, PlainPut(key, value));
    assert StoreAt(m, k);
    SerialAppend(m.history, [Write(key, value)]);
    OneWrite(SerialStore(m.history), key, value);
    if Awaited(m, k) {
      var o :| o in m.txns && m.txns[o].phase.Committing? && k in m.txns[o].phase.left;
      assert Awaited(m', k);
    }
  }

  lemma EveryActKeeps(m: Manager, a: Act)
    requires Inv(m) && CanAct(m, a) && Considerate(m, a)
    ensures Inv(Do(m, a))
  {
    hide Inv, Do, Harmless;
    match a
    case Begin => BeginKeeps(m);
    case TxnGet(id, key) => GetKeeps(m, id, key);
    case TxnPut(id, key, value) => PutKeeps(m, id, key, value);
    case CommitLog(id) => CommitLogKeeps(m, id);
    case CommitApply(id, key) => CommitApplyKeeps(m, id, key);
    case CommitRelease(id) => FinishKeeps(m, id); DoFinish(m, a);
    case Rollback(id) => FinishKeeps(m, id); DoFinish(m, a);
    case PlainPut(key, value) => PlainPutKeeps(m, key, value);
  }

  lemma DoFinish(m: Manager, a: Act)
    requires CanAct(m, a) && (a.CommitRelease? || a.Rollback?)
    ensures Do(m, a) == Finish(m, a.id)
  {
  }

  lemma {:induction false} RunsStayOk(acts: seq<Act>, m: Manager)
    requires Reaches(acts, m)
    ensures Inv(m)
    decreases |acts|
  {
    hide Inv, Do, CanAct, Considerate;
    if acts == [] {
      FreshOk();
    } else {
      var m0 := Run(acts[..|acts| - 1]).value;
      RunsStayOk(acts[..|acts| - 1], m0);
      EveryActKeeps(m0, acts[|acts| - 1]);
    }
  }

  lemma FreshOk()
    ensures Inv(FRESH)
  {
  }

  // ----- the theorems -----

  /** Every run is serializable in commit order: replaying the committed transactions one after
      another gives each of their reads the value it returned, and, once no commit is under
      way, the same store. A transaction that was rolled back is not in the history, so it has
      left no trace in either. */
  lemma Serializable(acts: seq<Act>, m: Manager)
    requires Reaches(acts, m)
    ensures SerialLegal(m.history)
    ensures (forall id :: id in m.txns ==> !m.txns[id].phase.Committing?) ==> m.store == SerialStore(m.history)
  {
    hide Reaches, SerialStore, SerialLegal, TableOk, TxnOk;
    RunsStayOk(acts, m);
    if forall id :: id in m.txns ==> !m.txns[id].phase.Committing? {
      forall key
        ensures key in m.store <==> key in SerialStore(m.history)
        ensures key in m.store ==> m.store[key] == SerialStore(m.history)[key]
      {
        assert StoreAt(m, key);
      }
    }
  }

  /** What a live transaction has read is still current: committing right now, it would be legal
      at the end of the order. */
  lemma ReadsStayCurrent(acts: seq<Act>, m: Manager, id: TxnId)
    requires Reaches(acts, m) && id in m.txns && m.txns[id].phase.Live?
    ensures Legal(SerialStore(m.history), m.txns[id].ops)
    ensures forall k :: k in BaseReads(m.txns[id].ops) ==> Names(m.locks, k, id)
  {
    hide Reaches, SerialStore, SerialLegal, TableOk, Legal, BaseReads, Buffer;
    RunsStayOk(acts, m);
    assert TxnOk(m, id);
  }

  /** In every state a key with a writer has no other reader, no reader is listed twice, and a
      transaction at work remembers exactly the keys the table names it on, each once. */
  lemma LocksStayExact(acts: seq<Act>, m: Manager)
    requires Reaches(acts, m)
    ensures TableOk(m.locks)
    ensures forall id :: id in m.txns && !m.txns[id].phase.Done? ==> Remembers(m.locks, m.txns[id].held, id)
  {
    hide Reaches, SerialStore, SerialLegal, TableOk, Remembers, Buffer, BaseReads, Legal;
    RunsStayOk(acts, m);
    forall id | id in m.txns && !m.txns[id].phase.Done?
      ensures Remembers(m.locks, m.txns[id].held, id)
    {
      assert TxnOk(m, id);
    }
  }

  lemma LegalAfterPutIff(base: Table, ops: seq<Op>, key: Bytes, value: Bytes)
    requires Legal(base, ops)
    ensures Legal(base[key := value], ops) <==> key !in BaseReads(ops) || Lookup(base, key) == value
  {
    hide Legal, BaseReads;
    if Legal(base[key := value], ops) {
      if key in BaseReads(ops) {
        LegalPins(base, base[key := value], ops, key);
      }
    }
    if key !in BaseReads(ops) || Lookup(base, key) == value {
      LegalStable(base, base[key := value], ops);
    }
  }

  lemma SerialAfterPut(m: Manager, key: Bytes, value: Bytes)
    ensures SerialStore(Do(m, PlainPut(key, value)).history) == SerialStore(m.history)[key := value]
  {
    hide SerialStore;
    SerialAppend(m.history, [Write(key, value)]);
    OneWrite(SerialStore(m.history), key, value);
  }

  /** In every state of every run a put outside transactions keeps everything that
      serializability rests on, if and only if it is harmless. */
  lemma PlainPutSafeIff(acts: seq<Act>, m: Manager, key: Bytes, value: Bytes)
    requires Reaches(acts, m)
    ensures Inv(Do(m, PlainPut(key, value))) <==> Harmless(m, key, value)
  {
    hide Reaches, SerialStore, Buffer, Legal, BaseReads, SerialLegal, TableOk;
    RunsStayOk(acts, m);
    var m' := Do(m, PlainPut(key, value));
    if Harmless(m, key, value) {
      PlainPutKeeps(m, key, value);
    }
    SerialAfterPut(m, key, value);
    if Inv(m') {
      forall id | id in m.txns && m.txns[id].phase.Live? && key in BaseReads(m.txns[id].ops)
        ensures Lookup(m.store, key) == value
      {
        assert TxnOk(m, id) && TxnOk(m', id);
        LegalAfterPutIff(SerialStore(m.history), m.txns[id].ops, key, value);
        ReadAgrees(m, id, key);
      }
      assert StoreAt(m', key);
    }
  }

  /** What a harmful put does to a reader: committed as it stands, the history is no longer
      legal. */
  lemma PutUnderReader(acts: seq<Act>, m: Manager, id: TxnId, key: Bytes, value: Bytes)
    requires Reaches(acts, m) && id in m.txns && m.txns[id].phase.Live? && key in BaseReads(m.txns[id].ops)
    requires Lookup(m.store, key) != value
    ensures !SerialLegal(Do(Do(m, PlainPut(key, value)), CommitLog(id)).history)
  {
    hide Reaches, SerialStore, Buffer, Legal, BaseReads, SerialLegal, TableOk;
    RunsStayOk(acts, m);
    var m' := Do(m, PlainPut(key, value));
    assert TxnOk(m, id);
    SerialAfterPut(m, key, value);
    ReadAgrees(m, id, key);
    LegalAfterPutIff(SerialStore(m.history), m.txns[id].ops, key, value);
    SerialAppend(m'.history, m.txns[id].ops);
  }

  /** And to a commit under way: its write goes over the put, which comes later in the order, so
      the store is left with what a replay of the log would not rebuild. */
  lemma PutUnderCommit(m: Manager, id: TxnId, key: Bytes, value: Bytes)
    requires CanAct(m, CommitApply(id, key)) && m.txns[id].buffer[key] != value
    ensures var after := Do(Do(m, PlainPut(key, value)), CommitApply(id, key));
      && key in after.store && after.store[key] == m.txns[id].buffer[key]
      && key in SerialStore(after.history) && SerialStore(after.history)[key] == value
  {
    hide SerialStore;
    SerialAfterPut(m, key, value);
  }

  // ----- what a leaked lock does -----

  ghost predicate CanRun(m: Manager, acts: seq<Act>)
    decreases |acts|
  {
    acts == [] || (CanAct(m, acts[0]) && Considerate(m, acts[0]) && CanRun(Do(m, acts[0]), acts[1..]))
  }

  ghost function After(m: Manager, acts: seq<Act>): Manager
    requires CanRun(m, acts)
    decreases |acts|
  {
    if acts == [] then m else After(Do(m, acts[0]), acts[1..])
  }

  /** A finished transaction that the lock table still names on a key. */
  ghost predicate Leaked(m: Manager, id: TxnId, key: Bytes) {
    id in m.txns && m.txns[id].phase.Done? && Names(m.locks, key, id)
  }

  lemma LeakStays(m: Manager, a: Act, id: TxnId, key: Bytes)
    requires Inv(m) && CanAct(m, a) && Leaked(m, id, key)
    ensures Leaked(Do(m, a), id, key)
  {
    hide SerialStore, Buffer, Legal, BaseReads, SerialLegal, AcquireRead, AcquireWrite, ReleaseAll, TableOk, Names;
    match a
    case TxnGet(o, k) => AttemptsLeaveOthers(m.locks, m.txns[o].held, o, k, id, key);
    case TxnPut(o, k, _) => AttemptsLeaveOthers(m.locks, m.txns[o].held, o, k, id, key);
    case CommitRelease(o) =>
      assert TxnOk(m, o);
      ReleaseLeavesOthers(m.locks, m.txns[o].held, o, key, id);
    case Rollback(o) =>
      assert TxnOk(m, o);
      ReleaseLeavesOthers(m.locks, m.txns[o].held, o, key, id);
    case _ =>
  }

  /** A leaked lock is never given back: however the run goes on, every other transaction is
      refused the write lock on that key. */
  lemma {:induction false} LeakShutsOthersOut(m: Manager, acts: seq<Act>, id: TxnId, key: Bytes, other: TxnId)
    requires Inv(m) && Leaked(m, id, key) && CanRun(m, acts)
    requires other in After(m, acts).txns && other != id
    ensures Leaked(After(m, acts), id, key)
    ensures AcquireWrite(After(m, acts).locks, After(m, acts).txns[other].held, other, key).Refused?
    decreases |acts|
  {
    hide SerialStore, SerialLegal, TxnOk, StoreAt, AcquireWrite, Do, CanAct, Considerate;
    if acts == [] {
      GrantedMeansAlone(m.locks, m.txns[other].held, other, key, id);
    } else {
      LeakStays(m, acts[0], id, key);
      EveryActKeeps(m, acts[0]);
      LeakShutsOthersOut(Do(m, acts[0]), acts[1..], id, key, other);
    }
  }
}
