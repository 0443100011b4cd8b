/** Opening a store (`NewDB`): after log, manifest and files the tables are read back through
    `Get` itself, and any failure of such a read refuses the start (db/db.go, db/create.go). */
module Startup {
  import opened ByteStrings
  import opened Tables
  import opened TableFormat
  import opened TableReaders
  import opened TableLookup
  import opened WriteAheadLog
  import opened Commands
  import opened Catalog
  import opened SecondaryIndexes
  import opened IndexQueries
  import opened CatalogStore
  import opened Store
  import opened Compaction
  import opened Engine
  import opened EngineSteps
  import opened EngineTheorems
  import opened Database
  import opened ExampleRuns

  /** `Get` of a store, reading `slack` bytes past a block. */
  function GetOf(db: Db, slack: nat): Get {
    k => if db.st.Readable() then DbGet(db, k, slack) else Panic
  }

  /** What `NewDB` comes to on what survives of this state. A log or file it cannot read counts as
      an error here. */
  function NewDb(c: Config, db: Db, slack: nat): Outcome<Defs> {
    match Recover(c, db)
    case None => Error
    case Some(started) => LoadTables(GetOf(started, slack))
  }

  // ----- reads after a restart -----

  /** No record of a table is empty. */
  ghost predicate NoneBlank(m: Table) {
    forall k :: k in m && CatalogLike(k) ==> m[k] != []
  }

  lemma {:induction false} LoadNamedAgrees(get: Get, other: Get, names: seq<Bytes>)
    requires forall k :: CatalogLike(k) ==> get(k) == other(k)
    ensures LoadNamed(get, names) == LoadNamed(other, names)
  {
    hide DecodeSchema, DecodeCatalog, CatalogLike, SchemaKey, IndexesKey;
    if names != [] {
      var n := |names| - 1;
      LoadNamedAgrees(get, other, names[..n]);
      KeysApart(names[n], names[n]);
    }
  }

  /** With the exact block length a start reads the tables as from the plain map of all logged
      writes. */
  lemma StartIsMapStart(c: Config, steps: seq<Step>, db: Db, h: History)
    requires Runs(c, steps, db, h) && NoneBlank(h.written)
    ensures NewDb(c, db, 0) == LoadTables(MapGet(h.written))
  {
    hide Runs, Recover, LoadNamed, SplitAtCommas, CatalogLike, DbGet, Next, Lookup;
    AfterCrash(c, steps, db, h);
    var started, h' := Recover(c, db).value, Recall(c, db, h, Crash);
    forall k | CatalogLike(k)
      ensures GetOf(started, 0)(k) == MapGet(h.written)(k)
    {
      GetIsMapLookup(c, steps + [Crash], started, h', k);
    }
    CatalogIsLike(map[]);
    assert IsCatalogKey(map[], CATALOG_KEY);
    match MapGet(h.written)(CATALOG_KEY)
    case Ok(text) => LoadNamedAgrees(GetOf(started, 0), MapGet(h.written), SplitAtCommas(text));
    case _ =>
  }

  lemma CataloguedNotBlank(m: Table, defs: Defs, names: seq<Bytes>)
    requires Catalogued(m, defs, names)
    ensures NoneBlank(m)
  {
    hide RecordsOf, Join, CatalogLike, SchemaKey, IndexesKey;
    forall k | k in m && CatalogLike(k)
      ensures m[k] != []
    {
      if k == CATALOG_KEY {
        NamesListable(m, defs, names);
        SplitJoin(names);
      } else {
        var name :| name in defs && (k == SchemaKey(name) || k == IndexesKey(name));
        RecordsThere(m, defs[name]);
      }
    }
  }

  /** Tables survive a restart: with the exact block length a start after a crash in any state of
      any run loads exactly the tables whose records were written. */
  lemma TablesSurvive(c: Config, steps: seq<Step>, db: Db, h: History, defs: Defs, names: seq<Bytes>)
    requires Runs(c, steps, db, h) && Catalogued(h.written, defs, names)
    ensures NewDb(c, db, 0) == Ok(defs)
  {
    hide Runs, NewDb, LoadTables, Catalogued;
    CataloguedNotBlank(h.written, defs, names);
    StartIsMapStart(c, steps, db, h);
    LoadsBack(MapGet(h.written), h.written, defs, names);
  }

  // ----- as written -----

  /** The key is in the replayed log, or every file that spans it without holding it is shadowed
      by a newer one that holds it. */
  ghost predicate Reached(h: History, key: Bytes) {
    key in Effect(h.payloads) ||
    forall i :: 0 <= i < |h.streams| && Trap(h.streams, i, key) ==> Shielded(h.streams, |h.streams|, i, key)
  }

  lemma CatalogReadIff(c: Config, steps: seq<Step>, db: Db, h: History, key: Bytes)
    requires Runs(c, steps, db, h) && NoneBlank(h.written) && CatalogLike(key)
    ensures Recover(c, db).Some?
    ensures GetOf(Recover(c, db).value, SLACK_AS_WRITTEN)(key) == if Reached(h, key) then Ok(Lookup(h.written, key)) else Error
  {
    hide Runs, Recover, CatalogLike, DbGet, Next, Effect, NotBlanked, Trap, Shielded, MergedView, Backed, OffsetsAligned;
    AfterCrash(c, steps, db, h);
    var started, h' := Recover(c, db).value, Recall(c, db, h, Crash);
    NoErrorNoLie(c, steps + [Crash], started, h', key);
    GetIsMapLookupAsWrittenIff(c, steps + [Crash], started, h', key);
    ReadFacts(c, steps + [Crash], started, h');
    assert key !in started.mem ==> (key in MergedView(h'.streams) <==> key in h'.shown);
    if key !in started.mem {
      UsuallyNotBlanked(h'.streams, key);
    }
  }

  /** As written a start after a crash in any state of any run loads the tables if and only if no
      file that spans one of their catalog keys without holding it is reached before one that
      answers; otherwise it is refused, however often it is tried. */
  lemma StartAsWrittenIff(c: Config, steps: seq<Step>, db: Db, h: History, defs: Defs, names: seq<Bytes>)
    requires Runs(c, steps, db, h) && Catalogued(h.written, defs, names)
    ensures NewDb(c, db, SLACK_AS_WRITTEN) ==
      if forall k :: IsCatalogKey(defs, k) ==> Reached(h, k) then Ok(defs) else Error
  {
    hide Runs, Recover, LoadTables, Catalogued, CatalogLike, Reached, GetOf, IsCatalogKey;
    CataloguedNotBlank(h.written, defs, names);
    AfterCrash(c, steps, db, h);
    var get := GetOf(Recover(c, db).value, SLACK_AS_WRITTEN);
    forall k | CatalogLike(k)
      ensures get(k) == if Reached(h, k) then Ok(Lookup(h.written, k)) else Error
    {
      CatalogReadIff(c, steps, db, h, k);
    }
    CatalogIsLike(defs);
    LoadsIff(get, h.written, defs, names);
  }

  // ----- a store that cannot be opened again -----

  /** With any checksum, the default block length and any value that fills the memtable: one put
      of a key below the catalog's, nothing else, and the store never starts again. */
  lemma OnePutShutsStore(crc: Checksum, v: Bytes) returns (steps: seq<Step>, db: Db, h: History)
    requires Fills(v)
    ensures Runs(AsWritten(crc), steps, db, h) && db.writer.Idle? && Catalogued(h.written, map[], [])
    ensures h.written == map[[1] := v]
    ensures NewDb(AsWritten(crc), db, SLACK_AS_WRITTEN) == Error && NewDb(AsWritten(crc), db, 0) == Ok(map[])
  {
    hide Runs, NewDb, CatalogLike, NamesBelow, Reached, ToTable;
    var c, rows := AsWritten(crc), [Row(1, v)];
    var before, db0, h0 := Puts(c, rows);
    var clears;
    clears, db, h := ListedIsReady(c, before, db0, h0);
    steps := before + clears;
    ToTableSingle(Row(1, v));
    NoTablesYet(v);
    TablesSurvive(c, steps, db, h, map[], []);
    StartAsWrittenIff(c, steps, db, h, map[], []);
    CatalogIsTrapped(c, steps, db, h, v);
    assert IsCatalogKey(map[], CATALOG_KEY);
  }

  lemma NoTablesYet(v: Bytes)
    ensures Catalogued(map[[1] := v], map[], [])
  {
  }

  lemma CatalogIsTrapped(c: Config, steps: seq<Step>, db: Db, h: History, v: Bytes)
    requires Runs(c, steps, db, h) && db.writer.Idle? && db.mem == map[] && h.streams == Singles([Row(1, v)])
    ensures !Reached(h, CATALOG_KEY)
  {
    hide Runs, ToTable, Effect, Backed, LogOk, FilesOk, OffsetsOk, WriterOk, CompactorOk, Apart, MergedView;
    RunsKeep(c, steps, db, h);
    ToTableKeys([Row(1, v)], CATALOG_KEY);
    assert !Less(CATALOG_KEY, [1]);
    assert Trap(h.streams, 0, CATALOG_KEY);
  }

  // ----- CREATE TABLE over the engine -----

  /** The engine after the first n puts of CREATE TABLE. */
  ghost function CreatedDb(c: Config, db: Db, names: seq<Bytes>, def: TableDef, n: nat): (done: Db)
    requires db.writer.Idle? && names != []
    ensures done.writer.Idle?
  {
    if n == 0 then db
    else
      var one := WholePut(c, db, CATALOG_KEY, Join(names));
      if n == 1 then one
      else
        var two := WholePut(c, one, SchemaKey(def.name), EncodeSchema(def.schema));
        match EncodeCatalog(def.schema.columns, def.indexes)
        case Some(indexBytes) => if n == 2 then two else WholePut(c, two, IndexesKey(def.name), indexBytes)
        case None => two
  }

  /** Each of the three puts is granted when its turn comes. */
  ghost predicate CreateGranted(c: Config, db: Db, names: seq<Bytes>, def: TableDef)
    requires db.writer.Idle? && names != []
  {
    && PutGranted(c, db, CATALOG_KEY, Join(names))
    && PutGranted(c, CreatedDb(c, db, names, def, 1), SchemaKey(def.name), EncodeSchema(def.schema))
    && match EncodeCatalog(def.schema.columns, def.indexes)
       case Some(indexBytes) => PutGranted(c, CreatedDb(c, db, names, def, 2), IndexesKey(def.name), indexBytes)
       case None => true
  }

  /** The first n puts, for every n, take a run to a run. */
  lemma CreateIsRun(c: Config, steps: seq<Step>, db: Db, h: History, names: seq<Bytes>, def: TableDef, n: nat) returns (more: seq<Step>, h': History)
    requires Runs(c, steps, db, h) && db.writer.Idle? && names != [] && CreateGranted(c, db, names, def)
    ensures Runs(c, steps + more, CreatedDb(c, db, names, def, n), h') && h'.written == Created(h.written, names, def, n)
  {
    hide Runs, WholePut, PutGranted, Join, EncodeSchema, EncodeCatalog, SchemaKey, IndexesKey;
    more, h' := [], h;
    assert steps + [] == steps;
    if n >= 1 {
      more, h' := PutIsRun(c, steps, db, h, CATALOG_KEY, Join(names));
    }
    if n >= 2 {
      var last;
      last, h' := PutIsRun(c, steps + more, CreatedDb(c, db, names, def, 1), h', SchemaKey(def.name), EncodeSchema(def.schema));
      assert (steps + more) + last == steps + (more + last);
      more := more + last;
    }
    if n >= 3 && EncodeCatalog(def.schema.columns, def.indexes).Some? {
      var last;
      last, h' := PutIsRun(c, steps + more, CreatedDb(c, db, names, def, 2), h', IndexesKey(def.name),
                           EncodeCatalog(def.schema.columns, def.indexes).value);
      assert (steps + more) + last == steps + (more + last);
      more := more + last;
    }
  }

  /** CREATE TABLE and a start, from any state of any run between two writes, with the exact block
      length: a start after all three puts loads the old tables and the new one; after one or two
      of them it succeeds if and only if the table had been there before and, after two, its old
      index columns are positions of the new schema. */
  lemma CreateThenStart(c: Config, steps: seq<Step>, db: Db, h: History, defs: Defs, names: seq<Bytes>, more: seq<Bytes>, def: TableDef)
    requires Runs(c, steps, db, h) && db.writer.Idle? && Catalogued(h.written, defs, names)
    requires Storeable(def) && Walks(more, defs.Keys + {def.name})
    requires more != [] && CreateGranted(c, db, more, def)
    ensures NewDb(c, CreatedDb(c, db, more, def, 3), 0) == Ok(defs[def.name := def])
    ensures NewDb(c, CreatedDb(c, db, more, def, 1), 0).Ok? <==> def.name in defs
    ensures NewDb(c, CreatedDb(c, db, more, def, 2), 0).Ok? <==>
      def.name in defs && AllFit(defs[def.name].schema.columns, def.schema.columns, defs[def.name].indexes)
  {
    hide Runs, NewDb, CreatedDb, CreateGranted, Created, Catalogued, LoadTables, NoneBlank, AllFit;
    CreateKeeps(h.written, defs, names, more, def);
    var s3, h3 := CreateIsRun(c, steps, db, h, more, def, 3);
    TablesSurvive(c, steps + s3, CreatedDb(c, db, more, def, 3), h3, defs[def.name := def], more);
    PartsNotBlank(h.written, defs, names, more, def);
    var s1, h1 := CreateIsRun(c, steps, db, h, more, def, 1);
    StartIsMapStart(c, steps + s1, CreatedDb(c, db, more, def, 1), h1);
    OnePutIff(h.written, defs, names, more, def);
    var s2, h2 := CreateIsRun(c, steps, db, h, more, def, 2);
    StartIsMapStart(c, steps + s2, CreatedDb(c, db, more, def, 2), h2);
    StoreableSchema(def);
    TwoPutsIff(h.written, defs, names, more, def);
  }

  lemma StoreableSchema(def: TableDef)
    requires Storeable(def)
    ensures Listable(def.name) && def.schema.pkPosition < U32_LIMIT
    ensures forall i :: 0 <= i < |def.schema.columns| ==> ColumnFits(def.schema.columns[i])
  {
  }

  lemma PartsNotBlank(m: Table, defs: Defs, names: seq<Bytes>, more: seq<Bytes>, def: TableDef)
    requires Catalogued(m, defs, names) && Storeable(def) && Walks(more, defs.Keys + {def.name}) && more != []
    ensures NoneBlank(Created(m, more, def, 1)) && NoneBlank(Created(m, more, def, 2))
  {
    hide Catalogued, Join, CatalogLike, EncodeSchema, EncodeCatalog, SchemaKey, IndexesKey, Listable;
    CataloguedNotBlank(m, defs, names);
    StoreableSchema(def);
    MoreListable(m, defs, names, more, def.name);
    SplitJoin(more);
    SchemaLength(def.schema);
  }

  // ----- the object -----

  /** The part of `DB` that knows the tables. */
  class TableDB {
    const db: DB
    var tables: Defs

    constructor (db: DB)
      ensures this.db == db && tables == map[]
    {
      this.db, tables := db, map[];
    }

    method LoadOne(name: Bytes) returns (r: Outcome<TableDef>)
      requires db.Valid()
      ensures r == LoadTable(GetOf(db.Snap(), SLACK_AS_WRITTEN), name)
    {
      hide DbGet, DecodeCatalog, DecodeSchema, SchemaKey, IndexesKey;
      var schemaBytes := db.Get(SchemaKey(name));
      if !schemaBytes.Ok? {
        return if schemaBytes.Error? then Error else Panic;
      }
      var schema := DeserialiseCreateTable(schemaBytes.value);
      if !schema.Ok? {
        return if schema.Error? then Error else Panic;
      }
      var indexBytes := db.Get(IndexesKey(name));
      if !indexBytes.Ok? {
        return if indexBytes.Error? then Error else Panic;
      }
      var indexes := DecodeCatalog(schema.value.columns, indexBytes.value);
      if !indexes.Ok? {
        return if indexes.Error? then Error else Panic;
      }
      r := Ok(TableDef(name, schema.value, indexes.value));
    }

    method GetTableNameVsSchemaMap() returns (r: Outcome<Defs>)
      requires db.Valid()
      ensures r == LoadTables(GetOf(db.Snap(), SLACK_AS_WRITTEN))
    {
      hide DbGet, LoadTable, SplitAtCommas;
      var text := db.Get(CATALOG_KEY);
      if !text.Ok? {
        return if text.Error? then Error else Panic;
      }
      if text.value == [] {
        return Ok(map[]);
      }
      var names, defs := SplitAtCommas(text.value), map[];
      for i := 0 to |names|
        invariant LoadNamed(GetOf(db.Snap(), SLACK_AS_WRITTEN), names[..i]) == Ok(defs)
      {
        assert names[..i + 1][..i] == names[..i];
        var def := LoadOne(names[i]);
        if !def.Ok? {
          r := if def.Error? then Error else Panic;
          LoadStaysFailed(GetOf(db.Snap(), SLACK_AS_WRITTEN), names, i + 1, r);
          return;
        }
        defs := defs[names[i] := def.value];
      }
      assert names[..|names|] == names;
      r := Ok(defs);
    }

    method NewDB() returns (ok: bool)
      requires db.wal.Valid() && db.wal.pos == 0 && db.memTable.Valid() && db.memTable.tree == map[]
      modifies this, db.wal`pos, db.memTable, db.ssTable
      ensures ok <==> NewDb(old(db.Cfg(false)), old(db.Snap()), SLACK_AS_WRITTEN).Ok?
      ensures ok ==> db.Valid() && Some(db.Snap()) == Recover(old(db.Cfg(false)), old(db.Snap()))
      ensures ok ==> Ok(tables) == NewDb(old(db.Cfg(false)), old(db.Snap()), SLACK_AS_WRITTEN)
    {
      hide LoadTables, Recover, GetOf;
      ok := db.Restart();
      if ok {
        var loaded := GetTableNameVsSchemaMap();
        ok := loaded.Ok?;
        if ok {
          tables := loaded.value;
        }
      }
    }

    /** The names of all tables, in the order the map is walked in. */
    method ListNames() returns (text: Bytes, ghost names: seq<Bytes>)
      requires tables != map[]
      ensures Walks(names, tables.Keys) && names != [] && text == Join(names)
    {
      hide WithCommas;
      names, text := [], [];
      assert WithCommas([]) == [] by { NoCommas([]); }
      var left := tables.Keys;
      while left != {}
        invariant left <= tables.Keys && Walks(names, tables.Keys - left) && text == WithCommas(names)
        decreases left
      {
        var name :| name in left;
        left := left - {name};
        WalksAppend(names, tables.Keys - left - {name}, name);
        assert (tables.Keys - left - {name}) + {name} == tables.Keys - left;
        CommasAppend(names, name);
        text := text + name + [COMMA];
        names := names + [name];
      }
      var name :| name in tables.Keys;
      assert name in names;
      WithCommasCons(names);
      text := text[..|text| - 1];
    }

    /** Three puts, the last of which is missing when an index names an unknown column. */
    method CreateTable(def: TableDef) returns (ok: bool, ghost names: seq<Bytes>)
      requires db.Valid()
      modifies this, db.wal, db.memTable, db.ssTable
      ensures tables == old(tables)[def.name := def]
      ensures Walks(names, tables.Keys) && names != []
      ensures ok <==> EncodeCatalog(def.schema.columns, def.indexes).Some?
      ensures db.Valid() && db.Snap() == CreatedDb(old(db.Cfg(false)), old(db.Snap()), names, def, 3)
    {
      hide WholePut, EncodeSchema, EncodeCatalog, Join;
      tables := tables[def.name := def];
      var text;
      assert def.name in tables;
      text, names := ListNames();
      var compact := db.Put(CATALOG_KEY, text);
      compact := db.Put(SchemaKey(def.name), EncodeSchema(def.schema));
      var indexBytes := EncodeCatalog(def.schema.columns, def.indexes);
      ok := indexBytes.Some?;
      if ok {
        compact := db.Put(IndexesKey(def.name), indexBytes.value);
      }
    }
  }

  lemma CommasAppend(names: seq<Bytes>, name: Bytes)
    ensures WithCommas(names + [name]) == WithCommas(names) + name + [COMMA]
  {
    assert (names + [name])[..|names|] == names;
  }

  lemma {:induction false} LoadStaysFailed(get: Get, names: seq<Bytes>, n: nat, r: Outcome<Defs>)
    requires 0 < n <= |names| && LoadNamed(get, names[..n]) == r && !r.Ok?
    ensures LoadNamed(get, names) == r
    decreases |names| - n
  {
    hide LoadTable;
    if n < |names| {
      assert names[..n + 1][..n] == names[..n];
      LoadStaysFailed(get, names, n + 1, r);
    } else {
      assert names[..n] == names;
    }
  }
}
