/** Serializability told from the acts of a run alone (db/transaction.go): who asked for what,
    what was granted, and in which order the commits were logged. */
module CommitOrder {
  import opened ByteStrings
  import opened Tables
  import opened Locks
  import opened Serializability

  // ----- what a run did -----

  /** The operation an act of this transaction performs if its lock is granted: a get with the
      value it returns, or a put as asked for. */
  function Performs(m: Manager, a: Act, id: TxnId): seq<Op>
    requires CanAct(m, a)
  {
    match a
    case TxnGet(asker, key) =>
      if asker == id && AcquireRead(m.locks, m.txns[id].held, id, key).Granted?
      then [Read(key, TxnGetResult(m, id, key))] else []
    case TxnPut(asker, key, value) =>
      if asker == id && AcquireWrite(m.locks, m.txns[id].held, id, key).Granted?
      then [Write(key, value)] else []
    case _ => []
  }

  /** All operations of a transaction in the order it asked for them. */
  function Performed(acts: seq<Act>, id: TxnId): seq<Op>
    requires Run(acts).Some?
    decreases |acts|
  {
    if acts == [] then []
    else
      var n := |acts| - 1;
      Performed(acts[..n], id) + Performs(Run(acts[..n]).value, acts[n], id)
  }

  /** The operations of the committed transactions one behind the other, in the order their log
      records were written. A put outside transactions is one of its own. */
  function InCommitOrder(acts: seq<Act>): seq<Op>
    requires Run(acts).Some?
    decreases |acts|
  {
    if acts == [] then []
    else
      var n := |acts| - 1;
      InCommitOrder(acts[..n]) +
        match acts[n]
        case CommitLog(id) => Performed(acts[..n], id)
        case PlainPut(key, value) => [Write(key, value)]
        case _ => []
  }

  // ----- what a reader expects of it -----

  ghost predicate LastWrite(ops: seq<Op>, i: nat, key: Bytes) {
    && i < |ops| && ops[i].Write? && ops[i].key == key
    && forall j :: i < j < |ops| ==> !(ops[j].Write? && ops[j].key == key)
  }

  ghost predicate NeverWritten(ops: seq<Op>, key: Bytes) {
    forall j :: 0 <= j < |ops| ==> !(ops[j].Write? && ops[j].key == key)
  }

  /** Every read returns the value of the last write before it, or empty where there is none. */
  ghost predicate ReadsLastWrites(ops: seq<Op>) {
    forall i :: 0 <= i < |ops| && ops[i].Read? ==> ReadsLastWrite(ops, i)
  }

  ghost predicate ReadsLastWrite(ops: seq<Op>, i: nat)
    requires i < |ops|
  {
    && (NeverWritten(ops[..i], ops[i].key) ==> ops[i].value == [])
    && forall w: nat :: LastWrite(ops[..i], w, ops[i].key) ==> ops[i].value == ops[w].value
  }

  /** The table holds the value of the last write of each key, and no other key. */
  ghost predicate HoldsLastWrites(ops: seq<Op>, store: Table) {
    forall key :: HoldsLastWrite(ops, store, key)
  }

  ghost predicate HoldsLastWrite(ops: seq<Op>, store: Table, key: Bytes) {
    && (key in store <==> !NeverWritten(ops, key))
    && forall w: nat :: LastWrite(ops, w, key) ==> key in store && store[key] == ops[w].value
  }

  // ----- buffers are last writes -----

  lemma {:induction false} BufferHolds(ops: seq<Op>, key: Bytes)
    ensures HoldsLastWrite(ops, Buffer(ops), key)
  {
    if ops != [] {
      var n := |ops| - 1;
      BufferHolds(ops[..n], key);
      assert NeverWritten(ops, key) <==> NeverWritten(ops[..n], key) && !(ops[n].Write? && ops[n].key == key);
      forall w: nat | LastWrite(ops, w, key)
        ensures key in Buffer(ops) && Buffer(ops)[key] == ops[w].value
      {
        if w < n {
          assert ops[..n][w] == ops[w] && LastWrite(ops[..n], w, key);
          assert !(ops[n].Write? && ops[n].key == key);
        }
      }
    }
  }

  lemma {:induction false} BufferConcat(a: seq<Op>, b: seq<Op>)
    ensures Buffer(a + b) == Buffer(a) + Buffer(b)
  {
    if b == [] {
      assert a + b == a;
    } else {
      assert (a + b)[..|a + b| - 1] == a + b[..|b| - 1];
      BufferConcat(a, b[..|b| - 1]);
    }
  }

  function Joined(history: seq<seq<Op>>): seq<Op> {
    if history == [] then [] else Joined(history[..|history| - 1]) + history[|history| - 1]
  }

  lemma {:induction false} SerialIsBuffer(history: seq<seq<Op>>)
    ensures SerialStore(history) == Buffer(Joined(history))
  {
    if history != [] {
      var n := |history| - 1;
      SerialIsBuffer(history[..n]);
      BufferConcat(Joined(history[..n]), history[n]);
    }
  }

  /** One more read is right if it returns what the buffer of all before it holds. */
  lemma ReadAppended(ops: seq<Op>, op: Op)
    requires ReadsLastWrites(ops)
    requires op.Read? ==> op.value == Lookup(Buffer(ops), op.key)
    ensures ReadsLastWrites(ops + [op])
  {
    hide Buffer;
    var all := ops + [op];
    forall i | 0 <= i < |all| && all[i].Read?
      ensures ReadsLastWrite(all, i)
    {
      if i < |ops| {
        assert all[..i] == ops[..i] && all[i] == ops[i] && ReadsLastWrite(ops, i);
      } else {
        assert all[..i] == ops;
        BufferHolds(ops, op.key);
      }
    }
  }

  lemma {:induction false} LegalReads(before: seq<Op>, ops: seq<Op>)
    requires ReadsLastWrites(before) && Legal(Buffer(before), ops)
    ensures ReadsLastWrites(before + ops)
  {
    hide ReadsLastWrites, Buffer;
    if ops == [] {
      assert before + ops == before;
    } else {
      var n := |ops| - 1;
      LegalReads(before, ops[..n]);
      BufferConcat(before, ops[..n]);
      ReadAppended(before + ops[..n], ops[n]);
      assert (before + ops[..n]) + [ops[n]] == before + ops;
    }
  }

  lemma {:induction false} SerialReads(history: seq<seq<Op>>)
    requires SerialLegal(history)
    ensures ReadsLastWrites(Joined(history))
  {
    hide Legal, SerialStore, Buffer;
    if history != [] {
      var n := |history| - 1;
      SerialReads(history[..n]);
      SerialIsBuffer(history[..n]);
      LegalReads(Joined(history[..n]), history[n]);
    }
  }

  // ----- the history is what the acts did -----

  function OpsOf(m: Manager, id: TxnId): seq<Op> {
    if id in m.txns then m.txns[id].ops else []
  }

  lemma OpsAfter(m: Manager, a: Act, id: TxnId)
    requires CanAct(m, a) && m.nextId !in m.txns
    ensures OpsOf(Do(m, a), id) == OpsOf(m, id) + Performs(m, a, id)
  {
    hide AcquireRead, AcquireWrite, TxnGetResult, ReleaseAll, Lookup;
    match a
    case TxnGet(asker, key) => assert OpsOf(m, id) + [] == OpsOf(m, id);
    case TxnPut(asker, key, value) => assert OpsOf(m, id) + [] == OpsOf(m, id);
    case _ => assert OpsOf(m, id) + [] == OpsOf(m, id);
  }

  lemma {:induction false} OpsArePerformed(acts: seq<Act>, m: Manager, id: TxnId)
    requires Reaches(acts, m)
    ensures Performed(acts, id) == OpsOf(m, id)
    ensures m.nextId !in m.txns
    decreases |acts|
  {
    hide Do, CanAct, Performs, Considerate, TxnOk, StoreAt, SerialLegal, TableOk;
    RunsStayOk(acts, m);
    if acts != [] {
      var n := |acts| - 1;
      var m0 := Run(acts[..n]).value;
      OpsArePerformed(acts[..n], m0, id);
      OpsAfter(m0, acts[n], id);
    }
  }

  lemma {:induction false} HistoryIsCommitOrder(acts: seq<Act>, m: Manager)
    requires Reaches(acts, m)
    ensures Joined(m.history) == InCommitOrder(acts)
    decreases |acts|
  {
    hide AcquireRead, AcquireWrite, TxnGetResult, ReleaseAll, Performed;
    if acts != [] {
      var n := |acts| - 1;
      var m0 := Run(acts[..n]).value;
      HistoryIsCommitOrder(acts[..n], m0);
      assert m.history != m0.history ==> m.history[..|m0.history|] == m0.history;
      if acts[n].CommitLog? {
        OpsArePerformed(acts[..n], m0, acts[n].id);
      }
    }
  }

  // ----- the theorems -----

  /** In every run the granted gets and puts of the committed transactions, lined up in commit
      order, read and write like one transaction after another: every get returned the value of
      the last put of its key before it, its own transaction's included, and, with no commit
      under way, the store holds for each key the value of the last put, and nothing else. */
  lemma CommitOrderExplains(acts: seq<Act>, m: Manager)
    requires Reaches(acts, m)
    ensures ReadsLastWrites(InCommitOrder(acts))
    ensures (forall id :: id in m.txns ==> !m.txns[id].phase.Committing?) ==> HoldsLastWrites(InCommitOrder(acts), m.store)
  {
    hide Run, ReadsLastWrites, SerialStore, SerialLegal, Buffer, LastWrite, NeverWritten;
    Serializable(acts, m);
    HistoryIsCommitOrder(acts, m);
    SerialReads(m.history);
    if forall id :: id in m.txns ==> !m.txns[id].phase.Committing? {
      SerialIsBuffer(m.history);
      forall key
        ensures HoldsLastWrite(InCommitOrder(acts), m.store, key)
      {
        BufferHolds(InCommitOrder(acts), key);
      }
    }
  }

  predicate Ends(a: Act, id: TxnId) {
    a == CommitLog(id) || a == Rollback(id)
  }

  /** A transaction that has ended does not come back to life. */
  lemma {:induction false} EndedStays(acts: seq<Act>, m: Manager, i: nat, id: TxnId)
    requires Reaches(acts, m) && i < |acts| && Ends(acts[i], id)
    ensures id in m.txns && !m.txns[id].phase.Live?
    decreases |acts|
  {
    hide AcquireRead, AcquireWrite, TxnGetResult, ReleaseAll;
    var n := |acts| - 1;
    var m0 := Run(acts[..n]).value;
    OpsArePerformed(acts[..n], m0, m0.nextId);
    if i < n {
      EndedStays(acts[..n], m0, i, id);
    }
  }

  lemma {:induction false} RunOfPrefix(acts: seq<Act>, n: nat)
    requires Run(acts).Some? && n <= |acts|
    ensures Run(acts[..n]).Some?
    decreases |acts|
  {
    if n == |acts| {
      assert acts[..n] == acts;
    } else {
      RunOfPrefix(acts[..|acts| - 1], n);
      assert acts[..|acts| - 1][..n] == acts[..n];
    }
  }

  /** A transaction ends once: it is committed a single time, and one that is rolled back never
      is, so it is not in the commit order. */
  lemma EndsOnce(acts: seq<Act>, i: nat, j: nat, id: TxnId)
    requires Run(acts).Some? && i < |acts| && j < |acts|
    requires Ends(acts[i], id) && Ends(acts[j], id)
    ensures i == j
  {
    if i < j {
      EndsOnceBefore(acts, i, j, id);
    } else if j < i {
      EndsOnceBefore(acts, j, i, id);
    }
  }

  lemma EndsOnceBefore(acts: seq<Act>, i: nat, j: nat, id: TxnId)
    requires Run(acts).Some? && i < j < |acts|
    requires Ends(acts[i], id)
    ensures !Ends(acts[j], id)
  {
    hide Do, Considerate;
    RunOfPrefix(acts, j);
    RunOfPrefix(acts, j + 1);
    assert acts[..j + 1][..j] == acts[..j] && acts[..j + 1][j] == acts[j];
    EndedStays(acts[..j], Run(acts[..j]).value, i, id);
  }
}
