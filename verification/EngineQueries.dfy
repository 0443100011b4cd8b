/** SELECT over the engine itself: with the reads right, in every state of every run, it lists
    the rows that meet all conditions. */
module EngineQueries {
  import opened ByteStrings
  import opened Tables
  import opened TableReaders
  import opened TableScans
  import opened Rows
  import opened Catalog
  import opened SecondaryIndexes
  import opened IndexQueries
  import opened QueryLoops
  import opened Store
  import opened Engine
  import opened EngineTheorems

  // ----- right reads give the right SELECT -----

  /** The primary keys a SELECT reads rows by. */
  function KeysRead(def: TableDef, query: Query, order: seq<Bytes>): seq<Bytes>
    requires def.schema.pkPosition < |def.schema.columns|
  {
    match PlanOf(def, query)
    case Point(pk) => [pk]
    case Scan => []
    case Indexed(_) => order
  }

  /** They show a map by prefix everywhere, and by key for these rows. */
  ghost predicate ReadsShow(def: TableDef, via: Reads, store: Table, pks: seq<Bytes>) {
    && (forall pk :: pk in pks ==> via.get(RowKey(def.name, pk)) == Ok(Lookup(store, RowKey(def.name, pk))))
    && (forall prefix :: via.fileScan(prefix).Ok? && via.fileScan(prefix).value + via.memScan(prefix) == Restrict(store, prefix))
  }

  lemma {:induction false} RowsByAgree(def: TableDef, via: Reads, store: Table, pks: seq<Bytes>)
    requires ReadsShow(def, via, store, pks)
    ensures ReadRowsBy(def.schema.columns, via.get, RowKeys(def.name, pks)) == ReadRows(def.schema.columns, store, RowKeys(def.name, pks))
  {
    hide DeserialiseRow, RowKey, Lookup, Restrict;
    if pks != [] {
      var n := |pks| - 1;
      assert RowKeys(def.name, pks)[..n] == RowKeys(def.name, pks[..n]);
      RowsByAgree(def, via, store, pks[..n]);
      assert RowKeys(def.name, pks)[n] == RowKey(def.name, pks[n]) && pks[n] in pks;
    }
  }

  lemma WalkedIsScanned(columns: seq<Column>, store: Table, prefix: Bytes, order: seq<Bytes>)
    requires Walks(order, Restrict(store, prefix).Keys)
    ensures ReadRows(columns, Restrict(store, prefix), order) == ReadRows(columns, store, order)
  {
    hide ReadRows, HasPrefix;
    WalkedLookup(order, Restrict(store, prefix).Keys, Restrict(store, prefix), store);
    ReadRowsIn(columns, Restrict(store, prefix), store, order);
  }

  lemma SelectByAgrees(def: TableDef, via: Reads, store: Table, query: Query, order: seq<Bytes>)
    requires def.schema.pkPosition < |def.schema.columns| && ReadsShow(def, via, store, KeysRead(def, query, order))
    requires WalkedBy(def, via, query, order)
    ensures Walked(def, store, query, PlanOf(def, query), order)
    ensures SelectBy(def, via, query, order) == Select(def, store, query, order)
  {
    hide ReadRows, ReadRowsBy, Filter, Choose, Walks, RowKeys, Restrict, RowKey, Lookup, IndexKey;
    match PlanOf(def, query)
    case Point(pk) => RowsByAgree(def, via, store, [pk]);
    case Scan => WalkedIsScanned(def.schema.columns, store, def.name + [COLON], order);
    case Indexed(choice) => RowsByAgree(def, via, store, order);
  }

  // ----- the engine's reads -----

  function EngineGet(db: Db, key: Bytes, slack: nat): Outcome<Bytes> {
    if db.st.Readable() then DbGet(db, key, slack) else Panic
  }

  function EngineScan(db: Db, prefix: Bytes): Outcome<Table> {
    if db.st.Readable() then PrefixUpTo(db.disk, db.st, |db.st.files|, prefix, map[]) else Panic
  }

  /** The reads of the engine in one state, `slack` bytes past the end of a block. */
  function EngineReads(db: Db, slack: nat): Reads {
    Reads(k => EngineGet(db, k, slack), p => Restrict(db.mem, p), p => EngineScan(db, p))
  }

  lemma {:induction false} SerialisedLength(columns: seq<Column>, values: Row)
    requires KnownTypes(columns) && Serialisable(columns, values) && columns != []
    ensures SerialiseRow(columns, values).Some? ==> SerialiseRow(columns, values).value != []
  {
    hide Atoi, U32;
  }

  /** What is stored under a row's key is not empty. */
  lemma RowValueNotEmpty(store: Table, def: TableDef, rows: RowsByKey, pk: Bytes)
    requires GoodDef(def) && InStep(store, def, rows)
    ensures var k := RowKey(def.name, pk); k !in store || store[k] != []
  {
    hide RowIndexKey, HasPrefix, IndexKey, SerialiseRow, ColonFree, Canonical, PkValue, GoodIndex, RowKey;
    var k := RowKey(def.name, pk);
    if k in store {
      KeyUnderTable(def.name, pk);
      assert IsRowKey(def, rows, k);
      var p :| p in rows && k == RowKey(def.name, p);
      assert RowStored(store, def, p, rows[p]);
      SerialisedLength(def.schema.columns, rows[p]);
    }
  }

  /** No file that spans the key without holding it is reached before one that answers. */
  ghost predicate Clear(db: Db, h: History, key: Bytes) {
    key in db.mem || forall i :: 0 <= i < |h.streams| && Trap(h.streams, i, key) ==> Shielded(h.streams, |h.streams|, i, key)
  }

  lemma RowRead(c: Config, steps: seq<Step>, db: Db, h: History, slack: nat, key: Bytes)
    requires Runs(c, steps, db, h) && (c.storesOffsets || !h.stale) && slack <= 1
    requires (key !in h.shown || h.shown[key] != []) && (slack == 0 || Clear(db, h, key))
    ensures EngineReads(db, slack).get(key) == Ok(Lookup(h.shown, key))
  {
    hide Runs, DbGet, MergedView, Backed, NotBlanked, Trap, Shielded, OffsetsAligned;
    ReadFacts(c, steps, db, h);
    if slack == 0 {
      GetIsMapLookup(c, steps, db, h, key);
    } else {
      GetIsMapLookupAsWrittenIff(c, steps, db, h, key);
      if key !in db.mem {
        UsuallyNotBlanked(h.streams, key);
      }
    }
  }

  lemma EngineReadsShow(c: Config, steps: seq<Step>, db: Db, h: History, slack: nat, def: TableDef, rows: RowsByKey, pks: seq<Bytes>)
    requires Runs(c, steps, db, h) && (c.storesOffsets || !h.stale) && slack <= 1 && GoodDef(def) && InStep(h.shown, def, rows)
    requires slack == 0 || forall pk :: pk in pks ==> Clear(db, h, RowKey(def.name, pk))
    ensures ReadsShow(def, EngineReads(db, slack), h.shown, pks)
  {
    hide Runs, GoodDef, InStep, DbGet, PrefixUpTo, Restrict, RowKey, Lookup, Clear;
    ReadFacts(c, steps, db, h);
    forall pk | pk in pks
      ensures EngineReads(db, slack).get(RowKey(def.name, pk)) == Ok(Lookup(h.shown, RowKey(def.name, pk)))
    {
      RowValueNotEmpty(h.shown, def, rows, pk);
      RowRead(c, steps, db, h, slack, RowKey(def.name, pk));
    }
    forall prefix
      ensures EngineReads(db, slack).fileScan(prefix).Ok?
      ensures EngineReads(db, slack).fileScan(prefix).value + EngineReads(db, slack).memScan(prefix) == Restrict(h.shown, prefix)
    {
      ScanIsMapScan(c, steps, db, h, prefix);
    }
  }

  /** In every state of every run whose applied writes hold a table's rows and index entries in
      step, until a swap as written has left the offsets behind, SELECT through the engine's own
      reads, in whatever order its maps are walked, lists exactly the rows that meet all
      conditions, each once: with the exact block length always, and with the byte too many if
      none of the keys it reads rows by runs into a file that spans it without holding it. */
  lemma SelectOverEngine(c: Config, steps: seq<Step>, db: Db, h: History, slack: nat, def: TableDef, rows: RowsByKey, query: Query, order: seq<Bytes>)
    requires Runs(c, steps, db, h) && (c.storesOffsets || !h.stale) && slack <= 1
    requires GoodDef(def) && def.schema.columns[def.schema.pkPosition].name != [] && InStep(h.shown, def, rows)
    requires slack == 0 || forall pk :: pk in KeysRead(def, query, order) ==> Clear(db, h, RowKey(def.name, pk))
    requires Answerable(def.schema.columns, query, []) && GoodPlan(def, rows, query, PlanOf(def, query))
    requires WalkedBy(def, EngineReads(db, slack), query, order)
    ensures SelectBy(def, EngineReads(db, slack), query, order).Ok?
    ensures Walks(SelectBy(def, EngineReads(db, slack), query, order).value, Answers(def, rows, query))
  {
    hide Runs, InStep, SelectBy, Select, WalkedBy, Walked, Walks, GoodPlan, PlanOf, Answerable, Answers, ReadsShow, EngineReads,
      GoodIndex, ColonFree, Clear;
    EngineReadsShow(c, steps, db, h, slack, def, rows, KeysRead(def, query, order));
    SelectByAgrees(def, EngineReads(db, slack), h.shown, query, order);
    SelectAnswers(h.shown, def, rows, query, order);
  }
}
