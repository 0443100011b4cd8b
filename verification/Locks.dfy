/** The lock table of the two-phase-locking transactions (db/transaction.go): who may write,
    who has read, and what a transaction remembers to release. */
module Locks {
  import opened ByteStrings

  type TxnId = nat

  /** 0 stands for no writer. */
  const NOBODY: TxnId := 0

  datatype LocksAcquired = LocksAcquired(writer: TxnId, readers: seq<TxnId>)

  type LockTable = map<Bytes, LocksAcquired>

  const FREE := LocksAcquired(NOBODY, [])

  datatype Refusal = HeldByWriter(writer: TxnId) | HeldByReaders

  /** A lock attempt: refused with nothing changed, or the new table and list of keys. */
  datatype Attempt = Refused(refusal: Refusal) | Granted(table: LockTable, held: seq<Bytes>)

  function LocksOn(table: LockTable, key: Bytes): LocksAcquired {
    if key in table then table[key] else FREE
  }

  /** `tryAcquireWriteLock`: a sole reader upgrades and leaves the readers. */
  function AcquireWrite(table: LockTable, held: seq<Bytes>, id: TxnId, key: Bytes): Attempt {
    var l := LocksOn(table, key);
    if key in table && l.writer != NOBODY && l.writer != id then Refused(HeldByWriter(l.writer))
    else if key in table && l.writer == id then Granted(table, held)
    else if |l.readers| > 1 || (|l.readers| == 1 && l.readers[0] != id) then Refused(HeldByReaders)
    else Granted(table[key := LocksAcquired(id, [])], if |l.readers| == 1 then held else held + [key])
  }

  /** `tryAcquireReadLock`: a writer that reads joins the readers as well. */
  function AcquireRead(table: LockTable, held: seq<Bytes>, id: TxnId, key: Bytes): Attempt {
    var l := LocksOn(table, key);
    if l.writer != NOBODY && l.writer != id then Refused(HeldByWriter(l.writer))
    else if id in l.readers then Granted(table, held)
    else Granted(table[key := l.(readers := l.readers + [id])], if l.writer == NOBODY then held + [key] else held)
  }

  function Without(readers: seq<TxnId>, id: TxnId): seq<TxnId> {
    if readers == [] then []
    else Without(readers[..|readers| - 1], id) + if readers[|readers| - 1] == id then [] else [readers[|readers| - 1]]
  }

  /** One key of `releaseAllLocks`: the code clears the writer or the reader, not both. */
  function ReleaseKey(table: LockTable, id: TxnId, key: Bytes): LockTable {
    var l := LocksOn(table, key);
    table[key := if l.writer == id then l.(writer := NOBODY) else l.(readers := Without(l.readers, id))]
  }

  function ReleaseAll(table: LockTable, held: seq<Bytes>, id: TxnId): LockTable {
    if held == [] then table
    else ReleaseKey(ReleaseAll(table, held[..|held| - 1], id), id, held[|held| - 1])
  }

  // ----- what the table says -----

  predicate Names(table: LockTable, key: Bytes, id: TxnId) {
    key in table && (table[key].writer == id || id in table[key].readers)
  }

  ghost predicate NoRepeats<T>(s: seq<T>) {
    forall i, j :: 0 <= i < j < |s| ==> s[i] != s[j]
  }

  /** A writer excludes every reader but itself, and no reader is listed twice. */
  ghost predicate Exclusive(l: LocksAcquired) {
    && NoRepeats(l.readers)
    && (l.writer != NOBODY ==> forall r :: r in l.readers ==> r == l.writer)
  }

  ghost predicate TableOk(table: LockTable) {
    forall key :: key in table ==> Exclusive(table[key])
  }

  /** A transaction remembers exactly the keys the table names it on, each once. */
  ghost predicate Remembers(table: LockTable, held: seq<Bytes>, id: TxnId) {
    && NoRepeats(held)
    && forall key :: key in held <==> Names(table, key, id)
  }

  lemma NoRepeatsAppend<T>(s: seq<T>, x: T)
    requires NoRepeats(s) && x !in s
    ensures NoRepeats(s + [x])
  {
  }

  lemma {:induction false} NoRepeatsInit<T>(s: seq<T>, n: nat)
    requires NoRepeats(s) && n <= |s|
    ensures NoRepeats(s[..n])
  {
  }

  lemma {:induction false} WithoutSpec(readers: seq<TxnId>, id: TxnId)
    ensures forall r :: r in Without(readers, id) <==> r in readers && r != id
    ensures NoRepeats(readers) ==> NoRepeats(Without(readers, id))
  {
    if readers != [] {
      var n := |readers| - 1;
      WithoutSpec(readers[..n], id);
      assert readers == readers[..n] + [readers[n]];
      if NoRepeats(readers) {
        NoRepeatsInit(readers, n);
        assert readers[n] !in readers[..n];
        if readers[n] != id {
          NoRepeatsAppend(Without(readers[..n], id), readers[n]);
        }
      }
    }
  }

  // ----- every attempt keeps it so -----

  lemma AcquireWriteKeeps(table: LockTable, held: seq<Bytes>, id: TxnId, key: Bytes)
    requires TableOk(table) && Remembers(table, held, id) && id != NOBODY
    requires AcquireWrite(table, held, id, key).Granted?
    ensures var a := AcquireWrite(table, held, id, key);
      TableOk(a.table) && Remembers(a.table, a.held, id) && key in a.table && a.table[key].writer == id
  {
    hide NoRepeats;
    var a, l := AcquireWrite(table, held, id, key), LocksOn(table, key);
    NothingRepeats<TxnId>();
    assert forall k :: k != key ==> (Names(a.table, k, id) <==> Names(table, k, id));
    if |l.readers| == 1 {
      assert l.readers[0] in l.readers;
      assert Names(table, key, id);
    } else if !(key in table && l.writer == id) {
      assert !Names(table, key, id);
      NoRepeatsAppend(held, key);
    }
  }

  lemma NothingRepeats<T>()
    ensures NoRepeats<T>([])
  {
  }

  lemma AcquireReadKeeps(table: LockTable, held: seq<Bytes>, id: TxnId, key: Bytes)
    requires TableOk(table) && Remembers(table, held, id) && id != NOBODY
    requires AcquireRead(table, held, id, key).Granted?
    ensures var a := AcquireRead(table, held, id, key);
      TableOk(a.table) && Remembers(a.table, a.held, id) && Names(a.table, key, id)
  {
    hide NoRepeats;
    var a, l := AcquireRead(table, held, id, key), LocksOn(table, key);
    NothingRepeats<TxnId>();
    assert forall k :: k != key ==> (Names(a.table, k, id) <==> Names(table, k, id));
    assert Exclusive(l);
    if id !in l.readers {
      NoRepeatsAppend(l.readers, id);
      assert l.writer != id ==> !Names(table, key, id);
      if l.writer == NOBODY {
        NoRepeatsAppend(held, key);
      }
    }
  }

  /** Nobody else's locks change hands: every other transaction is named where it was. */
  lemma AttemptsLeaveOthers(table: LockTable, held: seq<Bytes>, id: TxnId, key: Bytes, other: TxnId, k: Bytes)
    requires other != id && other != NOBODY
    ensures var w := AcquireWrite(table, held, id, key);
      w.Granted? ==> (Names(w.table, k, other) <==> Names(table, k, other))
    ensures var r := AcquireRead(table, held, id, key);
      r.Granted? ==> (Names(r.table, k, other) <==> Names(table, k, other))
  {
    var l := LocksOn(table, key);
    if |l.readers| == 1 {
      assert l.readers == [l.readers[0]];
    }
  }

  /** A granted write means nobody else is named on the key; a granted read means nobody else
      is writing it. */
  lemma GrantedMeansAlone(table: LockTable, held: seq<Bytes>, id: TxnId, key: Bytes, other: TxnId)
    requires TableOk(table) && id != NOBODY && other != id && other != NOBODY
    ensures AcquireWrite(table, held, id, key).Granted? ==> !Names(table, key, other)
    ensures AcquireRead(table, held, id, key).Granted? && key in table ==> table[key].writer != other
  {
    var l := LocksOn(table, key);
    if key in table {
      assert Exclusive(l);
      if |l.readers| == 1 {
        assert l.readers == [l.readers[0]];
      }
    }
  }

  /** A read lock is granted if and only if the key has no writer or the transaction is its
      writer. It then joins the readers behind all others, once, and nothing else changes. */
  lemma ReadGrantedIff(table: LockTable, held: seq<Bytes>, id: TxnId, key: Bytes)
    requires id != NOBODY
    ensures AcquireRead(table, held, id, key).Granted? <==>
      (key in table ==> table[key].writer == NOBODY || table[key].writer == id)
    ensures AcquireRead(table, held, id, key).Refused? ==>
      key in table && AcquireRead(table, held, id, key).refusal == HeldByWriter(table[key].writer)
    ensures AcquireRead(table, held, id, key).Granted? ==>
      ReadTaken(table, AcquireRead(table, held, id, key).table, id, key)
  {
  }

  ghost predicate ReadTaken(table: LockTable, after: LockTable, id: TxnId, key: Bytes) {
    && key in after && after.Keys == table.Keys + {key}
    && (forall k :: k in table && k != key ==> after[k] == table[k])
    && after[key].writer == (if key in table then table[key].writer else NOBODY)
    && var before := if key in table then table[key].readers else [];
       after[key].readers == if id in before then before else before + [id]
  }

  /** Another transaction writes the key or has read it. */
  predicate Contended(table: LockTable, id: TxnId, key: Bytes) {
    key in table && ((table[key].writer != NOBODY && table[key].writer != id) || exists r :: r in table[key].readers && r != id)
  }

  /** A write lock is granted if and only if no other transaction is the key's writer or among
      its readers; the refusal says which. The transaction is then the writer, and no reader
      is left unless it had been the writer before. */
  lemma WriteGrantedIff(table: LockTable, held: seq<Bytes>, id: TxnId, key: Bytes)
    requires TableOk(table) && id != NOBODY
    ensures AcquireWrite(table, held, id, key).Granted? <==> !Contended(table, id, key)
    ensures AcquireWrite(table, held, id, key).Refused? ==>
      (key in table && AcquireWrite(table, held, id, key).refusal ==
        (if table[key].writer != NOBODY then HeldByWriter(table[key].writer) else HeldByReaders))
    ensures AcquireWrite(table, held, id, key).Granted? ==>
      WriteTaken(table, AcquireWrite(table, held, id, key).table, id, key)
  {
    hide NoRepeats;
    var l := LocksOn(table, key);
    if key in table {
      assert Exclusive(l);
      if |l.readers| == 1 {
        assert l.readers == [l.readers[0]] && l.readers[0] in l.readers;
      } else if |l.readers| > 1 {
        TwoReaders(l.readers, id);
      }
    }
  }

  lemma TwoReaders(readers: seq<TxnId>, id: TxnId)
    requires NoRepeats(readers) && |readers| > 1
    ensures exists r :: r in readers && r != id
  {
    assert readers[0] in readers && readers[1] in readers && readers[0] != readers[1];
  }

  ghost predicate WriteTaken(table: LockTable, after: LockTable, id: TxnId, key: Bytes) {
    && key in after && after.Keys == table.Keys + {key}
    && (forall k :: k in table && k != key ==> after[k] == table[k])
    && after[key].writer == id
    && after[key].readers == if key in table && table[key].writer == id then table[key].readers else []
  }

  // ----- release -----

  lemma ReleaseKeyEntry(table: LockTable, id: TxnId, key: Bytes)
    requires TableOk(table)
    ensures TableOk(ReleaseKey(table, id, key))
    ensures forall k :: k != key ==> LocksOn(ReleaseKey(table, id, key), k) == LocksOn(table, k)
  {
    var l := LocksOn(table, key);
    WithoutSpec(l.readers, id);
    assert Exclusive(FREE);
    assert Exclusive(l);
  }

  lemma {:induction false} ReleaseAllUntouched(table: LockTable, held: seq<Bytes>, id: TxnId, key: Bytes)
    requires TableOk(table) && key !in held
    ensures TableOk(ReleaseAll(table, held, id))
    ensures key in ReleaseAll(table, held, id) <==> key in table
    ensures LocksOn(ReleaseAll(table, held, id), key) == LocksOn(table, key)
  {
    hide TableOk, Exclusive;
    if held != [] {
      var n := |held| - 1;
      ReleaseAllUntouched(table, held[..n], id, key);
      ReleaseKeyEntry(ReleaseAll(table, held[..n], id), id, held[n]);
    }
  }

  /** Each remembered key is released exactly once, from the entry it had. */
  lemma {:induction false} ReleaseAllAt(table: LockTable, held: seq<Bytes>, id: TxnId, i: nat)
    requires TableOk(table) && NoRepeats(held) && i < |held|
    ensures TableOk(ReleaseAll(table, held, id))
    ensures held[i] in ReleaseAll(table, held, id)
    ensures ReleaseAll(table, held, id)[held[i]] == ReleaseKey(table, id, held[i])[held[i]]
  {
    hide TableOk, Exclusive;
    var n := |held| - 1;
    if i == n {
      ReleaseAllUntouched(table, held[..n], id, held[n]);
    } else {
      ReleaseAllAt(table, held[..n], id, i);
    }
    ReleaseKeyEntry(ReleaseAll(table, held[..n], id), id, held[n]);
  }

  lemma ReleaseAllTableOk(table: LockTable, held: seq<Bytes>, id: TxnId)
    requires TableOk(table) && NoRepeats(held)
    ensures TableOk(ReleaseAll(table, held, id))
  {
    hide TableOk, NoRepeats;
    if held != [] {
      ReleaseAllAt(table, held, id, 0);
    }
  }

  /** The reported inconsistency cannot happen: on every key a transaction releases, it is the
      writer or among the readers. */
  lemma NoInconsistency(table: LockTable, held: seq<Bytes>, id: TxnId, i: nat)
    requires TableOk(table) && Remembers(table, held, id) && i < |held|
    ensures var l := LocksOn(ReleaseAll(table, held[..i], id), held[i]);
      l.writer == id || id in l.readers
  {
    assert held[i] !in held[..i];
    ReleaseAllUntouched(table, held[..i], id, held[i]);
    assert held[i] in held;
    assert Names(table, held[i], id);
  }

  /** A finished transaction's id stays behind on exactly the keys it read after it had locked
      them for writing. */
  lemma LeakIff(table: LockTable, held: seq<Bytes>, id: TxnId, key: Bytes)
    requires TableOk(table) && Remembers(table, held, id) && id != NOBODY
    ensures Names(ReleaseAll(table, held, id), key, id)
      <==> key in table && table[key].writer == id && id in table[key].readers
  {
    if key in held {
      var i :| 0 <= i < |held| && held[i] == key;
      ReleaseAllAt(table, held, id, i);
      assert Names(table, key, id);
      WithoutSpec(table[key].readers, id);
    } else {
      ReleaseAllUntouched(table, held, id, key);
      assert !Names(table, key, id);
    }
  }

  /** What is left of others does not change, and no writer is left on a released key. */
  lemma ReleaseLeavesOthers(table: LockTable, held: seq<Bytes>, id: TxnId, key: Bytes, other: TxnId)
    requires TableOk(table) && Remembers(table, held, id) && other != id && other != NOBODY
    ensures Names(ReleaseAll(table, held, id), key, other) <==> Names(table, key, other)
  {
    if key in held {
      var i :| 0 <= i < |held| && held[i] == key;
      ReleaseAllAt(table, held, id, i);
      assert Names(table, key, id);
      WithoutSpec(table[key].readers, id);
    } else {
      ReleaseAllUntouched(table, held, id, key);
    }
  }

  /** The leak comes from a real sequence of calls: put, then get, then release. */
  lemma PutThenGetLeaks(id: TxnId, key: Bytes)
    requires id != NOBODY
    ensures var w := AcquireWrite(map[], [], id, key);
      w.Granted? &&
      var r := AcquireRead(w.table, w.held, id, key);
      r.Granted? && r.held == [key] && Names(ReleaseAll(r.table, r.held, id), key, id)
  {
    var w := AcquireWrite(map[], [], id, key);
    var r := AcquireRead(w.table, w.held, id, key);
    assert [] + [id] == [id] && id in [id];
    assert ReleaseAll(r.table, [key][..0], id) == r.table;
    assert ReleaseAll(r.table, [key], id) == ReleaseKey(r.table, id, key);
  }

  /** And it bites when the finished transaction is used again: its next put on that key is
      granted as an upgrade, so it is not remembered, and no later release frees the key. */
  lemma ReuseAfterLeakNeverFrees(id: TxnId, key: Bytes)
    requires id != NOBODY
    ensures var leaked: LockTable := map[key := LocksAcquired(NOBODY, [id])];
      var w := AcquireWrite(leaked, [], id, key);
      w.Granted? && w.held == [] && ReleaseAll(w.table, w.held, id)[key].writer == id
  {
  }
}
