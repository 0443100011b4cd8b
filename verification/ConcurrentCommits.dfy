/** Commits of different transactions at the same time: `Commit` takes no lock of the database,
    so one may log and apply its writes while another flushes and clears (db/transaction.go,
    db/db.go). Files and log stand here for the tables they hold. */
module ConcurrentCommits {
  import opened ByteStrings
  import opened Tables
  import opened MemoryTable

  /** Where a commit stands: putting its writes into the memtable one by one, about to flush,
      flushed, and with the memtable cleared. */
  datatype Phase = Putting(todo: seq<Entry>) | Full | Flushed | MemCleared

  datatype Commit = Commit(writes: seq<Entry>, phase: Phase)

  /** `written` is the table of all commits in the order of their log records. */
  datatype Shared = Shared(wal: Table, mem: Table, files: Table, active: map<nat, Commit>, written: Table)

  datatype Step = Log(id: nat, writes: seq<Entry>) | PutOne(id: nat) | Check(id: nat) | Flush(id: nat) | ClearMem(id: nat) | ClearLog(id: nat)

  ghost predicate DistinctWrites(writes: seq<Entry>) {
    forall i, j :: 0 <= i < j < |writes| ==> writes[i].key != writes[j].key
  }

  predicate Writes(writes: seq<Entry>, key: Bytes) {
    exists i :: 0 <= i < |writes| && writes[i].key == key
  }

  /** The write locks: no two commits under way share a key. */
  ghost predicate Unlocked(s: Shared, writes: seq<Entry>) {
    forall id, key :: id in s.active && Writes(writes, key) ==> !Writes(s.active[id].writes, key)
  }

  ghost predicate Enabled(s: Shared, step: Step) {
    match step
    case Log(id, writes) => id !in s.active && DistinctWrites(writes) && Unlocked(s, writes)
    case PutOne(id) => id in s.active && s.active[id].phase.Putting? && s.active[id].phase.todo != []
    case Check(id) => id in s.active && s.active[id].phase == Putting([])
    case Flush(id) => id in s.active && s.active[id].phase.Full?
    case ClearMem(id) => id in s.active && s.active[id].phase.Flushed?
    case ClearLog(id) => id in s.active && s.active[id].phase.MemCleared?
  }

  function Moved(s: Shared, id: nat, phase: Phase): map<nat, Commit>
    requires id in s.active
  {
    s.active[id := s.active[id].(phase := phase)]
  }

  /** A commit that is no longer active has been acknowledged. */
  ghost function Next(s: Shared, step: Step): Shared
    requires Enabled(s, step)
  {
    match step
    case Log(id, writes) =>
      s.(wal := s.wal + ToTable(writes), written := s.written + ToTable(writes), active := s.active[id := Commit(writes, Putting(writes))])
    case PutOne(id) =>
      var todo := s.active[id].phase.todo;
      s.(mem := s.mem[todo[0].key := todo[0].value], active := Moved(s, id, Putting(todo[1..])))
    case Check(id) =>
      if TotalSize(s.mem) >= SIZE_LIMIT then s.(active := Moved(s, id, Full)) else s.(active := s.active - {id})
    case Flush(id) => s.(files := s.files + s.mem, active := Moved(s, id, Flushed))
    case ClearMem(id) => s.(mem := map[], active := Moved(s, id, MemCleared))
    case ClearLog(id) => s.(wal := map[], active := s.active - {id})
  }

  const FRESH := Shared(map[], map[], map[], map[], map[])

  ghost function After(s: Shared, steps: seq<Step>): Option<Shared>
    decreases |steps|
  {
    if steps == [] then Some(s)
    else if Enabled(s, steps[0]) then After(Next(s, steps[0]), steps[1..])
    else None
  }

  // ----- an acknowledged commit is lost -----

  const FIRST: Bytes := [1]
  const SECOND: Bytes := [2]

  /** The second commit logs and applies its write between the flush and the clears of the
      first: it is acknowledged, and then in neither files, memtable nor log. */
  lemma CommitLost(v: Bytes)
    requires |v| >= SIZE_LIMIT
    ensures var steps := [Log(1, [Entry(FIRST, v)]), PutOne(1), Check(1), Flush(1), Log(2, [Entry(SECOND, FIRST)]), PutOne(2),
                          ClearMem(1), Check(2), ClearLog(1)];
      After(FRESH, steps) == Some(Shared(map[], map[], map[FIRST := v], map[], map[FIRST := v, SECOND := FIRST]))
  {
    hide TotalSize, ToTable, Next, Enabled;
    var a, b := Entry(FIRST, v), Entry(SECOND, FIRST);
    ToTableSingle(a);
    ToTableSingle(b);
    var none: Table := map[];
    NoSize();
    TotalSizePut(none, FIRST, v);
    assert none[FIRST := v] == map[FIRST := v];
    var steps := [Log(1, [a]), PutOne(1), Check(1), Flush(1), Log(2, [b]), PutOne(2), ClearMem(1), Check(2), ClearLog(1)];
    FirstHalf(a);
    SecondHalf(a, b);
    var s4 := Shared(map[FIRST := v], map[FIRST := v], map[FIRST := v], map[1 := Commit([a], Flushed)], map[FIRST := v]);
    assert steps == steps[..4] + steps[4..];
    assert steps[..4] == [Log(1, [a]), PutOne(1), Check(1), Flush(1)];
    AfterConcat(FRESH, steps[..4], steps[4..]);
    assert steps[4..] == [Log(2, [b]), PutOne(2), ClearMem(1), Check(2), ClearLog(1)];
  }

  lemma NoSize()
    ensures TotalSize(map[]) == 0
  {
  }

  lemma {:induction false} AfterConcat(s: Shared, a: seq<Step>, b: seq<Step>)
    requires After(s, a).Some?
    ensures After(s, a + b) == After(After(s, a).value, b)
    decreases |a|
  {
    hide Next, Enabled;
    if a == [] {
      assert a + b == b;
    } else {
      assert (a + b)[0] == a[0] && (a + b)[1..] == a[1..] + b;
      AfterConcat(Next(s, a[0]), a[1..], b);
    }
  }

  lemma OneStep(s: Shared, step: Step, rest: seq<Step>)
    requires Enabled(s, step)
    ensures After(s, [step] + rest) == After(Next(s, step), rest)
  {
    hide Next, Enabled;
    assert ([step] + rest)[1..] == rest;
  }

  lemma FirstHalf(a: Entry)
    requires TotalSize(map[a.key := a.value]) >= SIZE_LIMIT
    ensures var t: Table := map[a.key := a.value];
      After(FRESH, [Log(1, [a]), PutOne(1), Check(1), Flush(1)]) == Some(Shared(t, t, t, map[1 := Commit([a], Flushed)], t))
  {
    hide TotalSize, ToTable, After;
    ToTableSingle(a);
    var t: Table := map[a.key := a.value];
    var none: Table := map[];
    assert none + t == t && none[a.key := a.value] == t && t + t == t && [a][1..] == [];
    var s1 := Shared(t, map[], map[], map[1 := Commit([a], Putting([a]))], t);
    var s2 := Shared(t, t, map[], map[1 := Commit([a], Putting([]))], t);
    var s3 := Shared(t, t, map[], map[1 := Commit([a], Full)], t);
    assert Next(FRESH, Log(1, [a])) == s1;
    assert Moved(s1, 1, Putting([])) == s2.active && Next(s1, PutOne(1)) == s2;
    assert Moved(s2, 1, Full) == s3.active && Next(s2, Check(1)) == s3;
    assert Moved(s3, 1, Flushed) == map[1 := Commit([a], Flushed)];
    OneStep(FRESH, Log(1, [a]), [PutOne(1), Check(1), Flush(1)]);
    OneStep(s1, PutOne(1), [Check(1), Flush(1)]);
    OneStep(s2, Check(1), [Flush(1)]);
    OneStep(s3, Flush(1), []);
    FourSteps(Log(1, [a]), PutOne(1), Check(1), Flush(1));
    NoSteps(Next(s3, Flush(1)));
  }

  lemma FourSteps(a: Step, b: Step, c: Step, d: Step)
    ensures [a] + [b, c, d] == [a, b, c, d] && [b] + [c, d] == [b, c, d] && [c] + [d] == [c, d] && [d] + [] == [d]
  {
  }

  lemma NoSteps(s: Shared)
    ensures After(s, []) == Some(s)
  {
  }

  lemma SecondHalf(a: Entry, b: Entry)
    requires a.key != b.key
    ensures var t: Table := map[a.key := a.value];
      After(Shared(t, t, t, map[1 := Commit([a], Flushed)], t), [Log(2, [b]), PutOne(2), ClearMem(1), Check(2), ClearLog(1)]) ==
      Some(Shared(map[], map[], t, map[], map[a.key := a.value, b.key := b.value]))
  {
    hide TotalSize, ToTable, After;
    ToTableSingle(b);
    NoSize();
    var t: Table := map[a.key := a.value];
    var u: Table := map[a.key := a.value, b.key := b.value];
    assert t + map[b.key := b.value] == u && t[b.key := b.value] == u && [b][1..] == [];
    var s0 := Shared(t, t, t, map[1 := Commit([a], Flushed)], t);
    var s1 := Shared(u, t, t, map[1 := Commit([a], Flushed), 2 := Commit([b], Putting([b]))], u);
    var s2 := Shared(u, u, t, map[1 := Commit([a], Flushed), 2 := Commit([b], Putting([]))], u);
    var s3 := Shared(u, map[], t, map[1 := Commit([a], MemCleared), 2 := Commit([b], Putting([]))], u);
    var s4 := Shared(u, map[], t, map[1 := Commit([a], MemCleared)], u);
    assert Next(s0, Log(2, [b])) == s1;
    assert Moved(s1, 2, Putting([])) == s2.active && Next(s1, PutOne(2)) == s2;
    assert Moved(s2, 1, MemCleared) == s3.active && Next(s2, ClearMem(1)) == s3;
    assert s3.active - {2} == s4.active && Next(s3, Check(2)) == s4;
    assert s4.active - {1} == map[];
    OneStep(s0, Log(2, [b]), [PutOne(2), ClearMem(1), Check(2), ClearLog(1)]);
    OneStep(s1, PutOne(2), [ClearMem(1), Check(2), ClearLog(1)]);
    OneStep(s2, ClearMem(1), [Check(2), ClearLog(1)]);
    OneStep(s3, Check(2), [ClearLog(1)]);
    OneStep(s4, ClearLog(1), []);
    assert [Log(2, [b])] + [PutOne(2), ClearMem(1), Check(2), ClearLog(1)] == [Log(2, [b]), PutOne(2), ClearMem(1), Check(2), ClearLog(1)];
    FourSteps(PutOne(2), ClearMem(1), Check(2), ClearLog(1));
    NoSteps(Next(s4, ClearLog(1)));
  }

  // ----- when none can be lost -----

  predicate Clearing(phase: Phase) {
    phase.Flushed? || phase.MemCleared?
  }

  /** From the flush of one commit to its clears no other logs, applies or flushes; and a flush
      waits until every record in the log has been applied. */
  ghost predicate Apart(s: Shared, step: Step) {
    match step
    case Log(_, _) => forall id :: id in s.active ==> !Clearing(s.active[id].phase)
    case PutOne(_) => forall id :: id in s.active ==> !Clearing(s.active[id].phase)
    case Flush(_) => forall id :: id in s.active ==> !Clearing(s.active[id].phase) && !Pending(s.active[id])
    case _ => true
  }

  predicate Pending(c: Commit) {
    c.phase.Putting? && c.phase.todo != []
  }

  ghost predicate PendingKey(s: Shared, key: Bytes) {
    exists id :: id in s.active && s.active[id].phase.Putting? && Writes(s.active[id].phase.todo, key)
  }

  /** What a commit still has to put is part of its writes and of what is written. */
  ghost predicate CommitOk(s: Shared, c: Commit) {
    c.phase.Putting? ==>
      && DistinctWrites(c.phase.todo)
      && (forall key :: Writes(c.phase.todo, key) ==> Writes(c.writes, key))
      && forall i :: 0 <= i < |c.phase.todo| ==> c.phase.todo[i].key in s.written && s.written[c.phase.todo[i].key] == c.phase.todo[i].value
  }

  ghost predicate Within(a: Table, b: Table) {
    forall k :: k in a ==> k in b && a[k] == b[k]
  }

  /** Files and log hold everything written. */
  ghost predicate Durable(s: Shared) {
    Within(s.wal, s.written) && s.files + s.wal == s.written && forall k :: k in s.mem ==> k in s.written
  }

  /** Files and memtable hold everything but what is still being put. */
  ghost predicate Visible(s: Shared) {
    forall k :: k in s.written && !PendingKey(s, k) ==> k in s.files + s.mem && (s.files + s.mem)[k] == s.written[k]
  }

  ghost predicate Disjoint(active: map<nat, Commit>) {
    forall a, b, k :: a in active && b in active && a != b && Writes(active[a].writes, k) ==> !Writes(active[b].writes, k)
  }

  ghost predicate CommitsOk(s: Shared) {
    forall id :: id in s.active ==> CommitOk(s, s.active[id])
  }

  ghost predicate ClearsOk(s: Shared) {
    forall id :: id in s.active && Clearing(s.active[id].phase) ==> ClearingOk(s, id)
  }

  ghost predicate NothingLost(s: Shared) {
    Durable(s) && Visible(s) && Disjoint(s.active) && CommitsOk(s) && ClearsOk(s)
  }

  ghost predicate ClearingOk(s: Shared, id: nat)
    requires id in s.active
  {
    && s.files == s.written && (s.active[id].phase.MemCleared? ==> s.mem == map[])
    && forall other :: other in s.active && other != id ==> !Clearing(s.active[other].phase) && !Pending(s.active[other])
  }

  lemma LogKeeps(s: Shared, id: nat, writes: seq<Entry>)
    requires NothingLost(s) && Enabled(s, Log(id, writes)) && Apart(s, Log(id, writes))
    ensures NothingLost(Next(s, Log(id, writes)))
  {
    hide ToTable, Visible, CommitsOk, Writes;
    PlusAssociates(s.files, s.wal, ToTable(writes));
    LogVisible(s, id, writes);
    LogCommits(s, id, writes);
  }

  lemma LogVisible(s: Shared, id: nat, writes: seq<Entry>)
    requires Visible(s) && id !in s.active && DistinctWrites(writes)
    ensures Visible(s.(wal := s.wal + ToTable(writes), written := s.written + ToTable(writes),
                       active := s.active[id := Commit(writes, Putting(writes))]))
  {
    hide ToTable, Writes;
    var s' := s.(wal := s.wal + ToTable(writes), written := s.written + ToTable(writes),
                 active := s.active[id := Commit(writes, Putting(writes))]);
    WritesTable(writes);
    forall k | PendingKey(s, k)
      ensures PendingKey(s', k)
    {
      var other :| other in s.active && s.active[other].phase.Putting? && Writes(s.active[other].phase.todo, k);
      assert s'.active[other] == s.active[other];
    }
    forall k | k in s'.written && !PendingKey(s', k)
      ensures k in s'.files + s'.mem && (s'.files + s'.mem)[k] == s'.written[k]
    {
      assert s'.active[id].phase.Putting? && !Writes(s'.active[id].phase.todo, k);
      assert k !in ToTable(writes);
    }
  }

  lemma LogCommits(s: Shared, id: nat, writes: seq<Entry>)
    requires CommitsOk(s) && id !in s.active && DistinctWrites(writes) && Unlocked(s, writes)
    ensures CommitsOk(s.(wal := s.wal + ToTable(writes), written := s.written + ToTable(writes),
                         active := s.active[id := Commit(writes, Putting(writes))]))
  {
    hide ToTable, Writes, CommitOk;
    var s' := s.(wal := s.wal + ToTable(writes), written := s.written + ToTable(writes),
                 active := s.active[id := Commit(writes, Putting(writes))]);
    WritesTable(writes);
    NewIsOk(s', writes);
    forall other | other in s'.active && other != id
      ensures CommitOk(s', s'.active[other])
    {
      assert CommitOk(s, s.active[other]);
      StillOk(s, s', s.active[other]);
    }
  }

  lemma NewIsOk(s: Shared, writes: seq<Entry>)
    requires DistinctWrites(writes)
    requires forall i :: 0 <= i < |writes| ==> writes[i].key in s.written && s.written[writes[i].key] == writes[i].value
    ensures CommitOk(s, Commit(writes, Putting(writes)))
  {
  }

  /** The table of writes with distinct keys. */
  lemma WritesTable(writes: seq<Entry>)
    requires DistinctWrites(writes)
    ensures forall k :: k in ToTable(writes) <==> Writes(writes, k)
    ensures forall i :: 0 <= i < |writes| ==> writes[i].key in ToTable(writes) && ToTable(writes)[writes[i].key] == writes[i].value
  {
    forall k
      ensures k in ToTable(writes) <==> Writes(writes, k)
    {
      ToTableKeys(writes, k);
    }
    forall i | 0 <= i < |writes|
      ensures writes[i].key in ToTable(writes) && ToTable(writes)[writes[i].key] == writes[i].value
    {
      DistinctAt(writes, i);
    }
  }

  lemma {:induction false} DistinctAt(writes: seq<Entry>, i: nat)
    requires DistinctWrites(writes) && i < |writes|
    ensures writes[i].key in ToTable(writes) && ToTable(writes)[writes[i].key] == writes[i].value
  {
    if i < |writes| - 1 {
      DistinctAt(writes[..|writes| - 1], i);
    }
  }

  /** A commit's open writes stay right when others with other keys are written. */
  lemma StillOk(s: Shared, s': Shared, c: Commit)
    requires CommitOk(s, c)
    requires forall k :: Writes(c.writes, k) && k in s.written ==> k in s'.written && s'.written[k] == s.written[k]
    ensures CommitOk(s', c)
  {
    if c.phase.Putting? {
      forall i | 0 <= i < |c.phase.todo|
        ensures c.phase.todo[i].key in s'.written && s'.written[c.phase.todo[i].key] == c.phase.todo[i].value
      {
        assert Writes(c.phase.todo, c.phase.todo[i].key);
      }
    }
  }

  lemma PutOneKeeps(s: Shared, id: nat)
    requires NothingLost(s) && Enabled(s, PutOne(id)) && Apart(s, PutOne(id))
    ensures NothingLost(Next(s, PutOne(id)))
  {
    hide Visible, Writes, CommitOk;
    var todo := s.active[id].phase.todo;
    assert CommitOk(s, s.active[id]);
    FirstIsWritten(s, s.active[id]);
    PutOneVisible(s, id);
    RestIsOk(s, s.active[id]);
    forall other | other in s.active && other != id
      ensures CommitOk(Next(s, PutOne(id)), s.active[other])
    {
      StillOk(s, Next(s, PutOne(id)), s.active[other]);
    }
    SameTodo(s, Next(s, PutOne(id)), Commit(s.active[id].writes, Putting(todo[1..])));
  }

  lemma FirstIsWritten(s: Shared, c: Commit)
    requires CommitOk(s, c) && c.phase.Putting? && c.phase.todo != []
    ensures c.phase.todo[0].key in s.written && s.written[c.phase.todo[0].key] == c.phase.todo[0].value
  {
  }

  lemma RestIsOk(s: Shared, c: Commit)
    requires CommitOk(s, c) && c.phase.Putting? && c.phase.todo != []
    ensures CommitOk(s, Commit(c.writes, Putting(c.phase.todo[1..])))
  {
    hide Writes;
    WritesCons(c.phase.todo);
    assert forall i :: 0 <= i < |c.phase.todo[1..]| ==> c.phase.todo[1..][i] == c.phase.todo[i + 1];
  }

  lemma SameTodo(s: Shared, s': Shared, c: Commit)
    requires s'.written == s.written && CommitOk(s, c)
    ensures CommitOk(s', c)
  {
    hide Writes;
  }

  lemma PutOneVisible(s: Shared, id: nat)
    requires Visible(s) && id in s.active && s.active[id].phase.Putting? && s.active[id].phase.todo != []
    requires var e := s.active[id].phase.todo[0]; e.key in s.written && s.written[e.key] == e.value
    ensures Visible(Next(s, PutOne(id)))
  {
    hide Writes;
    var s', todo := Next(s, PutOne(id)), s.active[id].phase.todo;
    WritesCons(todo);
    forall k | PendingKey(s, k) && k != todo[0].key
      ensures PendingKey(s', k)
    {
      var other :| other in s.active && s.active[other].phase.Putting? && Writes(s.active[other].phase.todo, k);
      assert s'.active[other].phase.Putting? && Writes(s'.active[other].phase.todo, k);
    }
  }

  lemma WritesCons(writes: seq<Entry>)
    requires writes != []
    ensures forall k :: Writes(writes, k) <==> k == writes[0].key || Writes(writes[1..], k)
  {
    forall k | Writes(writes, k) && k != writes[0].key
      ensures Writes(writes[1..], k)
    {
      var i :| 0 <= i < |writes| && writes[i].key == k;
      assert writes[1..][i - 1].key == k;
    }
    forall k | Writes(writes[1..], k)
      ensures Writes(writes, k)
    {
      var i :| 0 <= i < |writes[1..]| && writes[1..][i].key == k;
      assert writes[i + 1].key == k;
    }
  }

  /** A step that changes only phases, and adds nothing to put. */
  lemma SameTables(s: Shared, s': Shared)
    requires Visible(s) && CommitsOk(s) && s'.written == s.written && s'.files + s'.mem == s.files + s.mem
    requires forall id :: id in s'.active ==> id in s.active && s'.active[id].writes == s.active[id].writes
    requires forall id :: id in s'.active && s'.active[id].phase.Putting? ==> s'.active[id] == s.active[id]
    requires forall id :: id in s.active && Pending(s.active[id]) ==> id in s'.active && s'.active[id] == s.active[id]
    ensures Visible(s') && CommitsOk(s')
  {
    hide Writes, CommitOk;
    forall k | PendingKey(s, k)
      ensures PendingKey(s', k)
    {
      var id :| id in s.active && s.active[id].phase.Putting? && Writes(s.active[id].phase.todo, k);
      NothingWritten(s.active[id].phase.todo, k);
      assert Pending(s.active[id]) && s'.active[id] == s.active[id];
    }
    forall id | id in s'.active
      ensures CommitOk(s', s'.active[id])
    {
      if s'.active[id].phase.Putting? {
        assert CommitOk(s, s.active[id]);
        SameTodo(s, s', s.active[id]);
      } else {
        DoneIsOk(s', s'.active[id]);
      }
    }
  }

  lemma NothingWritten(writes: seq<Entry>, k: Bytes)
    ensures Writes(writes, k) ==> writes != []
  {
  }

  lemma DoneIsOk(s: Shared, c: Commit)
    requires !c.phase.Putting?
    ensures CommitOk(s, c)
  {
  }

  lemma CheckKeeps(s: Shared, id: nat)
    requires NothingLost(s) && Enabled(s, Check(id))
    ensures NothingLost(Next(s, Check(id)))
  {
    hide TotalSize, Visible, CommitsOk, Writes, Within;
    SameTables(s, Next(s, Check(id)));
  }

  /** With nothing left to put, files and memtable hold everything written. */
  lemma AllVisible(s: Shared)
    requires Durable(s) && Visible(s) && forall id :: id in s.active ==> !Pending(s.active[id])
    ensures s.files + s.mem == s.written
  {
    forall k
      ensures !PendingKey(s, k)
    {
      forall id | id in s.active && s.active[id].phase.Putting?
        ensures !Writes(s.active[id].phase.todo, k)
      {
        assert !Pending(s.active[id]);
      }
    }
    assert forall k :: k in s.files ==> k in s.files + s.wal;
  }

  lemma FlushKeeps(s: Shared, id: nat)
    requires NothingLost(s) && Enabled(s, Flush(id)) && Apart(s, Flush(id))
    ensures NothingLost(Next(s, Flush(id)))
  {
    hide Visible, CommitsOk, Writes;
    AllVisible(s);
    var s' := Next(s, Flush(id));
    assert s'.files + s'.mem == s.files + s.mem && s'.files + s'.wal == s.written;
    SameTables(s, s');
  }

  lemma ClearMemKeeps(s: Shared, id: nat)
    requires NothingLost(s) && Enabled(s, ClearMem(id))
    ensures NothingLost(Next(s, ClearMem(id)))
  {
    hide Visible, CommitsOk, Writes;
    var s' := Next(s, ClearMem(id));
    assert ClearingOk(s, id);
    AllVisible(s);
    assert s'.files + s'.mem == s.written;
    SameTables(s, s');
  }

  lemma ClearLogKeeps(s: Shared, id: nat)
    requires NothingLost(s) && Enabled(s, ClearLog(id))
    ensures NothingLost(Next(s, ClearLog(id)))
  {
    hide Visible, CommitsOk, Writes;
    var s' := Next(s, ClearLog(id));
    assert ClearingOk(s, id);
    assert s'.files + s'.wal == s.written;
    SameTables(s, s');
  }

  lemma EveryStepKeeps(s: Shared, step: Step)
    requires NothingLost(s) && Enabled(s, step) && Apart(s, step)
    ensures NothingLost(Next(s, step))
  {
    hide NothingLost, Next, Enabled, Apart;
    match step
    case Log(id, writes) => LogKeeps(s, id, writes);
    case PutOne(id) => PutOneKeeps(s, id);
    case Check(id) => CheckKeeps(s, id);
    case Flush(id) => FlushKeeps(s, id);
    case ClearMem(id) => ClearMemKeeps(s, id);
    case ClearLog(id) => ClearLogKeeps(s, id);
  }

  /** Every step of the run is taken apart. */
  ghost predicate AllApart(s: Shared, steps: seq<Step>)
    decreases |steps|
  {
    steps != [] && Enabled(s, steps[0]) ==> Apart(s, steps[0]) && AllApart(Next(s, steps[0]), steps[1..])
  }

  lemma {:induction false} RunsKeep(s: Shared, steps: seq<Step>)
    requires NothingLost(s) && AllApart(s, steps) && After(s, steps).Some?
    ensures NothingLost(After(s, steps).value)
    decreases |steps|
  {
    hide NothingLost, Next, Enabled, Apart;
    if steps != [] {
      EveryStepKeeps(s, steps[0]);
      RunsKeep(Next(s, steps[0]), steps[1..]);
    }
  }

  /** In every run of any number of commits whose flushes are apart from the others: files and log
      hold everything logged, at any time, and files and memtable everything acknowledged, once
      no commit is under way. */
  lemma ApartLosesNothing(steps: seq<Step>)
    requires AllApart(FRESH, steps) && After(FRESH, steps).Some?
    ensures After(FRESH, steps).value.files + After(FRESH, steps).value.wal == After(FRESH, steps).value.written
    ensures After(FRESH, steps).value.active == map[] ==>
      After(FRESH, steps).value.files + After(FRESH, steps).value.mem == After(FRESH, steps).value.written
  {
    hide After, AllApart;
    assert NothingLost(FRESH) by { FreshKeeps(); }
    RunsKeep(FRESH, steps);
    NothingMissing(After(FRESH, steps).value);
  }

  lemma FreshKeeps()
    ensures NothingLost(FRESH)
  {
    var none: Table := map[];
    assert none + none == none;
  }

  lemma NothingMissing(s: Shared)
    requires NothingLost(s)
    ensures s.files + s.wal == s.written
    ensures s.active == map[] ==> s.files + s.mem == s.written
  {
    if s.active == map[] {
      AllVisible(s);
    }
  }
}
