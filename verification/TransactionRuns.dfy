/** A whole commit as acts of a run of transactions and, at the same time, as steps of the engine:
    both arrive at the same map (db/transaction.go). */
module TransactionRuns {
  import opened ByteStrings
  import opened Tables
  import opened Locks
  import Commands
  import opened Serializability
  import opened Engine
  import opened Database

  /** The log record, the writes in the order the map is visited in, and the locks. */
  function CommitActs(id: TxnId, order: seq<Entry>): seq<Act> {
    [CommitLog(id)] + AppliesAndRelease(id, order)
  }

  function AppliesAndRelease(id: TxnId, order: seq<Entry>): seq<Act> {
    if order == [] then [CommitRelease(id)] else [CommitApply(id, order[0].key)] + AppliesAndRelease(id, order[1..])
  }

  /** What a transaction leaves when it has committed. */
  function Committed(m: Manager, id: TxnId, store: Table): Manager
    requires id in m.txns
  {
    m.(store := store, locks := ReleaseAll(m.locks, m.txns[id].held, id), txns := m.txns[id := Txn(map[], [], m.txns[id].ops, Done)])
  }

  ghost predicate Remaining(m: Manager, id: TxnId, order: seq<Entry>) {
    && id in m.txns && m.txns[id].phase == Committing(set i | 0 <= i < |order| :: order[i].key)
    && DistinctKeys(order)
    && forall i :: 0 <= i < |order| ==> order[i].key in m.txns[id].buffer && m.txns[id].buffer[order[i].key] == order[i].value
  }

  lemma ApplyStep(m: Manager, id: TxnId, order: seq<Entry>)
    requires order != [] && Remaining(m, id, order)
    ensures CanAct(m, CommitApply(id, order[0].key))
    ensures Remaining(Do(m, CommitApply(id, order[0].key)), id, order[1..])
    ensures Do(m, CommitApply(id, order[0].key)).store == m.store[order[0].key := order[0].value]
  {
    var keys, rest := set i | 0 <= i < |order| :: order[i].key, order[1..];
    assert keys - {order[0].key} == set i | 0 <= i < |rest| :: rest[i].key by {
      forall k
        ensures k in keys - {order[0].key} <==> k in (set i | 0 <= i < |rest| :: rest[i].key)
      {
        if k in keys - {order[0].key} {
          var i :| 0 <= i < |order| && order[i].key == k;
          assert rest[i - 1].key == k;
        }
        if k in (set i | 0 <= i < |rest| :: rest[i].key) {
          var i :| 0 <= i < |rest| && rest[i].key == k;
          assert order[i + 1].key == k;
        }
      }
    }
  }

  lemma ReleaseStep(m: Manager, id: TxnId)
    requires Remaining(m, id, [])
    ensures CanRun(m, [CommitRelease(id)])
    ensures After(m, [CommitRelease(id)]) == Committed(m, id, m.store)
  {
    hide ReleaseAll;
    var acts := [CommitRelease(id)];
    assert m.txns[id].phase == Committing({});
    assert acts[1..] == [];
    assert CanRun(Do(m, acts[0]), acts[1..]);
  }

  lemma ActThen(m: Manager, a: Act, acts: seq<Act>)
    requires CanAct(m, a) && !a.PlainPut? && CanRun(Do(m, a), acts)
    ensures CanRun(m, [a] + acts) && After(m, [a] + acts) == After(Do(m, a), acts)
  {
    hide Do, CanAct;
    assert ([a] + acts)[1..] == acts;
  }

  lemma StoreMore(store: Table, e: Entry, rest: seq<Entry>)
    ensures store[e.key := e.value] + ToTable(rest) == store + ToTable([e] + rest)
  {
    hide ToTable;
    ToTableCons(e, rest);
  }

  lemma CommittedLater(m: Manager, id: TxnId, key: Bytes, store: Table)
    requires CanAct(m, CommitApply(id, key))
    ensures Committed(Do(m, CommitApply(id, key)), id, store) == Committed(m, id, store)
  {
    hide ReleaseAll;
  }

  lemma {:induction false} AppliesRun(m: Manager, id: TxnId, order: seq<Entry>)
    requires Remaining(m, id, order)
    ensures CanRun(m, AppliesAndRelease(id, order))
    ensures After(m, AppliesAndRelease(id, order)) == Committed(m, id, m.store + ToTable(order))
    decreases |order|
  {
    hide ToTable, Committed, CanRun, After, Do, CanAct;
    if order == [] {
      ReleaseStep(m, id);
      assert ToTable([]) == map[] by { EmptyTable(); }
      assert m.store + map[] == m.store;
    } else {
      hide Remaining;
      ApplyStep(m, id, order);
      var next := Do(m, CommitApply(id, order[0].key));
      AppliesRun(next, id, order[1..]);
      ActThen(m, CommitApply(id, order[0].key), AppliesAndRelease(id, order[1..]));
      CommittedLater(m, id, order[0].key, next.store + ToTable(order[1..]));
      StoreMore(m.store, order[0], order[1..]);
      assert order == [order[0]] + order[1..];
    }
  }

  lemma EmptyTable()
    ensures ToTable([]) == map[]
  {
  }

  /** With its whole map listed in any order, a commit under way is over after these acts. */
  lemma CommitActsRun(m: Manager, id: TxnId, order: seq<Entry>)
    requires CanAct(m, CommitLog(id)) && Commands.Lists(order, m.txns[id].buffer)
    ensures CanRun(m, CommitActs(id, order))
    ensures After(m, CommitActs(id, order)) ==
      Committed(m, id, m.store + m.txns[id].buffer).(history := m.history + [m.txns[id].ops])
  {
    hide ToTable, CanRun, After, ReleaseAll, Do, Remaining, Committed, Commands.Lists;
    LogStep(m, id, order);
    var writes := m.txns[id].buffer;
    Commands.ListingReplays(order, writes);
    AppliesRun(Do(m, CommitLog(id)), id, order);
    ActThen(m, CommitLog(id), AppliesAndRelease(id, order));
  }

  lemma LogStep(m: Manager, id: TxnId, order: seq<Entry>)
    requires CanAct(m, CommitLog(id)) && Commands.Lists(order, m.txns[id].buffer)
    ensures var logged := Do(m, CommitLog(id));
      && Remaining(logged, id, order) && logged.store == m.store
      && forall store :: Committed(logged, id, store) == Committed(m, id, store).(history := m.history + [m.txns[id].ops])
  {
    hide ReleaseAll, DistinctKeys;
    ListingDistinct(order, m.txns[id].buffer);
    AllListed(order, m.txns[id].buffer);
  }

  lemma AllListed(order: seq<Entry>, writes: Table)
    requires Commands.Lists(order, writes)
    ensures writes.Keys == set i | 0 <= i < |order| :: order[i].key
    ensures forall i :: 0 <= i < |order| ==> order[i].key in writes && writes[order[i].key] == order[i].value
  {
    hide ToTable;
    Commands.ListingReplays(order, writes);
    var keys := set i | 0 <= i < |order| :: order[i].key;
    forall k
      ensures k in writes.Keys <==> k in keys
    {
      ToTableKeys(order, k);
    }
  }

  /** A commit keeps the two in step: where the map of all logged writes is the store of a run of
      transactions, it still is after the whole commit as steps of the one and acts of the
      other. */
  lemma CommitInStep(c: Config, steps: seq<Step>, db: Db, h: History, m: Manager, id: TxnId, order: seq<Entry>) returns (more: seq<Step>, h': History)
    requires Runs(c, steps, db, h) && db.writer.Idle? && h.written == m.store
    requires CanAct(m, CommitLog(id)) && Commands.Lists(order, m.txns[id].buffer)
    requires DistinctKeys(order) && CommitGranted(c, db, order)
    ensures Runs(c, steps + more, WholeCommit(c, db, order), h')
    ensures CanRun(m, CommitActs(id, order)) && h'.written == After(m, CommitActs(id, order)).store
  {
    hide Runs, WholeCommit, CommitGranted, ToTable, CanRun, After, CommitActs, ReleaseAll, Commands.Lists;
    more, h' := CommitIsRun(c, steps, db, h, order);
    Commands.ListingReplays(order, m.txns[id].buffer);
    CommitActsRun(m, id, order);
  }
}
