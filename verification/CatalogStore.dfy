/** The tables a store knows: the records CREATE TABLE puts, and reading them all back when the
    store is opened (db/create.go, db/db.go). */
module CatalogStore {
  import opened ByteStrings
  import opened Tables
  import opened TableReaders
  import opened Rows
  import opened Catalog
  import opened SecondaryIndexes
  import opened IndexQueries

  // ----- the keys -----

  /** `_calatog` */
  const CATALOG_KEY: Bytes := [95, 99, 97, 108, 97, 116, 111, 103]
  /** `_schema:` */
  const SCHEMA_PREFIX: Bytes := [95, 115, 99, 104, 101, 109, 97, 58]
  /** `_secondary_indexes:` */
  const INDEXES_PREFIX: Bytes := [95, 115, 101, 99, 111, 110, 100, 97, 114, 121, 95, 105, 110, 100, 101, 120, 101, 115, 58]

  const COMMA: byte := 44

  function SchemaKey(name: Bytes): Bytes {
    SCHEMA_PREFIX + name
  }

  function IndexesKey(name: Bytes): Bytes {
    INDEXES_PREFIX + name
  }

  predicate CatalogLike(key: Bytes) {
    key == CATALOG_KEY || HasPrefix(key, SCHEMA_PREFIX) || HasPrefix(key, INDEXES_PREFIX)
  }

  lemma KeysApart(a: Bytes, b: Bytes)
    ensures SchemaKey(a) != CATALOG_KEY && IndexesKey(a) != CATALOG_KEY && SchemaKey(a) != IndexesKey(b)
    ensures SchemaKey(a) == SchemaKey(b) <==> a == b
    ensures IndexesKey(a) == IndexesKey(b) <==> a == b
    ensures CatalogLike(SchemaKey(a)) && CatalogLike(IndexesKey(a))
  {
    assert SchemaKey(a)[1] == 115 && IndexesKey(a)[1] == 115 && CATALOG_KEY[1] == 99;
    assert SchemaKey(a)[2] == 99 && IndexesKey(b)[2] == 101;
    assert SchemaKey(a)[|SCHEMA_PREFIX|..] == a && SchemaKey(b)[|SCHEMA_PREFIX|..] == b;
    assert IndexesKey(a)[|INDEXES_PREFIX|..] == a && IndexesKey(b)[|INDEXES_PREFIX|..] == b;
    assert SchemaKey(a)[..|SCHEMA_PREFIX|] == SCHEMA_PREFIX && IndexesKey(a)[..|INDEXES_PREFIX|] == INDEXES_PREFIX;
  }

  // ----- the list of names -----

  /** `strings.Split` at every comma. */
  function SplitAtCommas(text: Bytes): (parts: seq<Bytes>)
    ensures parts != []
  {
    if text == [] then [[]]
    else
      var rest := SplitAtCommas(text[1..]);
      if text[0] == COMMA then [[]] + rest else [[text[0]] + rest[0]] + rest[1..]
  }

  /** The names one after another, each followed by a comma. */
  function WithCommas(names: seq<Bytes>): Bytes {
    if names == [] then [] else WithCommas(names[..|names| - 1]) + (names[|names| - 1] + [COMMA])
  }

  /** The same without the last comma. */
  function Join(names: seq<Bytes>): Bytes
    requires names != []
  {
    WithCommas(names)[..|WithCommas(names)| - 1]
  }

  predicate Listable(name: Bytes) {
    name != [] && COMMA !in name
  }

  predicate AllListable(names: seq<Bytes>) {
    forall i :: 0 <= i < |names| ==> Listable(names[i])
  }

  lemma CommaRegroups(a: Bytes, b: Bytes, c: Bytes)
    ensures (a + ([COMMA] + b)) + (c + [COMMA]) == a + ([COMMA] + (b + (c + [COMMA])))
  {
  }

  lemma {:induction false} WithCommasCons(names: seq<Bytes>)
    requires names != []
    ensures WithCommas(names) == names[0] + ([COMMA] + WithCommas(names[1..]))
  {
    var n := |names| - 1;
    if n == 0 {
      assert names[..n] == [] && names[1..] == [];
      assert names[0] + [COMMA] == names[0] + ([COMMA] + []);
    } else {
      WithCommasCons(names[..n]);
      assert names[..n][1..] == names[1..][..n - 1];
      CommaRegroups(names[0], WithCommas(names[1..][..n - 1]), names[n]);
    }
  }

  lemma {:induction false} SplitName(name: Bytes, rest: Bytes)
    requires COMMA !in name
    ensures SplitAtCommas(name + ([COMMA] + rest)) == [name] + SplitAtCommas(rest)
    ensures SplitAtCommas(name) == [name]
  {
    var text := name + ([COMMA] + rest);
    if name == [] {
      assert text == [COMMA] + rest && text[1..] == rest;
    } else {
      assert text[1..] == name[1..] + ([COMMA] + rest);
      SplitName(name[1..], rest);
      assert [name[0]] + name[1..] == name;
    }
  }

  /** Names without commas are read back as they were listed, whatever their order. */
  lemma {:induction false} SplitJoin(names: seq<Bytes>)
    requires names != [] && AllListable(names)
    ensures Join(names) != [] && SplitAtCommas(Join(names)) == names
  {
    hide WithCommas;
    WithCommasCons(names);
    if |names| == 1 {
      assert WithCommas(names[1..]) == [] by { NoCommas(names[1..]); }
      assert Join(names) == names[0];
      SplitName(names[0], []);
    } else {
      SplitJoin(names[1..]);
      assert Join(names) == names[0] + ([COMMA] + Join(names[1..])) by { CommasLast(names); }
      SplitName(names[0], Join(names[1..]));
      assert names == [names[0]] + names[1..];
    }
  }

  lemma NoCommas(names: seq<Bytes>)
    requires names == []
    ensures WithCommas(names) == []
  {
  }

  lemma CommasLast(names: seq<Bytes>)
    requires |names| > 1
    ensures Join(names) == names[0] + ([COMMA] + Join(names[1..]))
  {
    hide WithCommas;
    WithCommasCons(names);
    WithCommasCons(names[1..]);
  }

  // ----- reading everything back -----

  type Get = Bytes -> Outcome<Bytes>

  /** One turn of the loop of `getTableNameVsSchemaMap`. */
  function LoadTable(get: Get, name: Bytes): Outcome<TableDef> {
    match get(SchemaKey(name))
    case Ok(schemaBytes) =>
      (match DecodeSchema(schemaBytes)
       case Ok(schema) =>
         (match get(IndexesKey(name))
          case Ok(indexBytes) =>
            (match DecodeCatalog(schema.columns, indexBytes)
             case Ok(indexes) => Ok(TableDef(name, schema, indexes))
             case Error => Error
             case Panic => Panic)
          case Error => Error
          case Panic => Panic)
       case Error => Error
       case Panic => Panic)
    case Error => Error
    case Panic => Panic
  }

  type Defs = map<Bytes, TableDef>

  function LoadNamed(get: Get, names: seq<Bytes>): Outcome<Defs> {
    if names == [] then Ok(map[])
    else match LoadNamed(get, names[..|names| - 1])
      case Ok(defs) =>
        (match LoadTable(get, names[|names| - 1])
         case Ok(def) => Ok(defs[names[|names| - 1] := def])
         case Error => Error
         case Panic => Panic)
      case other => other
  }

  /** `getTableNameVsSchemaMap`. */
  function LoadTables(get: Get): Outcome<Defs> {
    match get(CATALOG_KEY)
    case Ok(text) => if text == [] then Ok(map[]) else LoadNamed(get, SplitAtCommas(text))
    case Error => Error
    case Panic => Panic
  }

  /** Reading a plain map. */
  function MapGet(m: Table): Get {
    k => Ok(Lookup(m, k))
  }

  // ----- what the records should be -----

  /** A definition whose lengths fit the 32-bit fields. */
  ghost predicate Storeable(def: TableDef) {
    && Listable(def.name) && def.schema.pkPosition < U32_LIMIT && |def.schema.columns| < U32_LIMIT
    && (forall i :: 0 <= i < |def.schema.columns| ==> ColumnFits(def.schema.columns[i]))
    && |def.indexes| < U32_LIMIT && (forall i :: 0 <= i < |def.indexes| ==> IndexFitsCatalog(def.indexes[i]))
    && EncodeCatalog(def.schema.columns, def.indexes).Some?
  }

  ghost predicate RecordsOf(m: Table, def: TableDef) {
    && Storeable(def)
    && SchemaKey(def.name) in m && m[SchemaKey(def.name)] == EncodeSchema(def.schema)
    && IndexesKey(def.name) in m && EncodeCatalog(def.schema.columns, def.indexes) == Some(m[IndexesKey(def.name)])
  }

  predicate IsCatalogKey(defs: Defs, key: Bytes) {
    key == CATALOG_KEY || exists name :: name in defs && (key == SchemaKey(name) || key == IndexesKey(name))
  }

  /** The map holds the records of exactly these tables, listed in this order. */
  ghost predicate Catalogued(m: Table, defs: Defs, names: seq<Bytes>) {
    && Walks(names, defs.Keys)
    && (if names == [] then CATALOG_KEY !in m else CATALOG_KEY in m && m[CATALOG_KEY] == Join(names))
    && (forall name :: name in defs ==> defs[name].name == name && RecordsOf(m, defs[name]))
    && (forall key :: key in m && CatalogLike(key) ==> IsCatalogKey(defs, key))
  }

  lemma CatalogLengths(columns: seq<Column>, indexes: seq<SecondaryIndex>)
    requires EncodeCatalog(columns, indexes).Some?
    ensures |EncodeCatalog(columns, indexes).value| >= 4
  {
    hide EncodeIndexes;
  }

  lemma SchemaLength(s: Schema)
    ensures |EncodeSchema(s)| >= 4
  {
    hide EncodeColumns;
  }

  lemma LoadTableBack(get: Get, m: Table, def: TableDef)
    requires RecordsOf(m, def)
    requires get(SchemaKey(def.name)) == Ok(m[SchemaKey(def.name)]) && get(IndexesKey(def.name)) == Ok(m[IndexesKey(def.name)])
    ensures LoadTable(get, def.name) == Ok(def)
  {
    hide EncodeSchema, DecodeSchema, EncodeCatalog, DecodeCatalog, SchemaKey, IndexesKey;
    SchemaRoundTrip(def.schema);
    CatalogRoundTrip(def.schema.columns, def.indexes);
  }

  /** The definitions of some of the names. */
  function Part(defs: Defs, names: seq<Bytes>): Defs
    requires forall i :: 0 <= i < |names| ==> names[i] in defs
  {
    map name | name in names :: defs[name]
  }

  ghost predicate ReadsTable(get: Get, m: Table, name: Bytes) {
    get(SchemaKey(name)) == Ok(Lookup(m, SchemaKey(name))) && get(IndexesKey(name)) == Ok(Lookup(m, IndexesKey(name)))
  }

  lemma {:induction false} LoadNamedIs(get: Get, defs: Defs, names: seq<Bytes>)
    requires forall i :: 0 <= i < |names| ==> names[i] in defs && LoadTable(get, names[i]) == Ok(defs[names[i]])
    ensures LoadNamed(get, names) == Ok(Part(defs, names))
  {
    hide LoadTable;
    if names != [] {
      var n := |names| - 1;
      LoadNamedIs(get, defs, names[..n]);
      assert names == names[..n] + [names[n]];
      assert Part(defs, names) == Part(defs, names[..n])[names[n] := defs[names[n]]];
    }
  }

  lemma LoadNamedBack(get: Get, m: Table, defs: Defs, names: seq<Bytes>)
    requires forall i :: 0 <= i < |names| ==> names[i] in defs && defs[names[i]].name == names[i] && RecordsOf(m, defs[names[i]])
    requires forall i :: 0 <= i < |names| ==> ReadsTable(get, m, names[i])
    ensures LoadNamed(get, names) == Ok(Part(defs, names))
  {
    hide LoadTable, RecordsOf, LoadNamed;
    forall i | 0 <= i < |names|
      ensures LoadTable(get, names[i]) == Ok(defs[names[i]])
    {
      assert ReadsTable(get, m, names[i]);
      RecordsThere(m, defs[names[i]]);
      LoadTableBack(get, m, defs[names[i]]);
    }
    LoadNamedIs(get, defs, names);
  }

  lemma RecordsThere(m: Table, def: TableDef)
    requires RecordsOf(m, def)
    ensures SchemaKey(def.name) in m && IndexesKey(def.name) in m && Listable(def.name)
    ensures m[SchemaKey(def.name)] != [] && m[IndexesKey(def.name)] != []
  {
    hide EncodeSchema, EncodeCatalog;
    SchemaLength(def.schema);
    CatalogLengths(def.schema.columns, def.indexes);
  }

  lemma {:induction false} LoadNamedFails(get: Get, names: seq<Bytes>, i: nat)
    requires i < |names| && !LoadTable(get, names[i]).Ok?
    ensures !LoadNamed(get, names).Ok?
  {
    hide LoadTable;
    if i < |names| - 1 {
      LoadNamedFails(get, names[..|names| - 1], i);
    }
  }

  lemma {:induction false} NoPanic(get: Get, names: seq<Bytes>)
    requires forall k :: CatalogLike(k) ==> !get(k).Panic?
    ensures !LoadNamed(get, names).Panic?
  {
    hide DecodeSchema, DecodeCatalog;
    if names != [] {
      NoPanic(get, names[..|names| - 1]);
      DecodersEnd(get, names[|names| - 1]);
    }
  }

  lemma DecodersEnd(get: Get, name: Bytes)
    requires forall k :: CatalogLike(k) ==> !get(k).Panic?
    ensures !LoadTable(get, name).Panic?
  {
    hide DecodeColumns, DecodeIndexes, CatalogLike;
    KeysApart(name, name);
    match get(SchemaKey(name))
    case Ok(schemaBytes) =>
      if |schemaBytes| >= 4 {
        ColumnsEnd(schemaBytes[4..]);
      }
      if DecodeSchema(schemaBytes).Ok? && get(IndexesKey(name)).Ok? {
        var buf := get(IndexesKey(name)).value;
        if |buf| >= 4 {
          IndexesEnd(DecodeSchema(schemaBytes).value.columns, buf[4..], ReadU32(buf[..4]));
        }
      }
    case _ =>
  }

  lemma {:induction false} ColumnsEnd(buf: Bytes)
    ensures !DecodeColumns(buf).Panic?
    decreases |buf|
  {
    hide Take;
    if buf != [] && Take(buf[1..]).Some? {
      ColumnsEnd(Take(buf[1..]).value.rest);
    }
  }

  lemma {:induction false} PositionsEnd(columns: seq<Column>, buf: Bytes, n: nat)
    ensures !DecodePositions(columns, buf, n).Panic?
  {
    hide ReadU32;
    if n > 0 && |buf| >= 4 {
      PositionsEnd(columns, buf[4..], n - 1);
    }
  }

  lemma {:induction false} IndexesEnd(columns: seq<Column>, buf: Bytes, n: nat)
    ensures !DecodeIndexes(columns, buf, n).Panic?
    decreases n
  {
    hide ReadU32, Take;
    if n > 0 && Take(buf).Some? && |Take(buf).value.rest| >= 4 {
      var more := Take(buf).value.rest;
      PositionsEnd(columns, more[4..], ReadU32(more[..4]));
      match DecodePositions(columns, more[4..], ReadU32(more[..4]))
      case Ok(cols) => IndexesEnd(columns, cols.rest, n - 1);
      case _ =>
    }
  }

  lemma NamesListable(m: Table, defs: Defs, names: seq<Bytes>)
    requires Catalogued(m, defs, names)
    ensures AllListable(names)
  {
    hide RecordsOf;
    forall i | 0 <= i < |names|
      ensures Listable(names[i])
    {
      assert names[i] in names;
      RecordsThere(m, defs[names[i]]);
    }
  }

  /** Reads that agree with the map on its catalog keys load exactly its tables. */
  lemma LoadsBack(get: Get, m: Table, defs: Defs, names: seq<Bytes>)
    requires Catalogued(m, defs, names) && forall k :: IsCatalogKey(defs, k) ==> get(k) == Ok(Lookup(m, k))
    ensures LoadTables(get) == Ok(defs)
  {
    hide RecordsOf, LoadNamed, Join, SplitAtCommas, Listable;
    assert get(CATALOG_KEY) == Ok(Lookup(m, CATALOG_KEY));
    if names == [] {
      assert defs.Keys == {};
    } else {
      NamesListable(m, defs, names);
      SplitJoin(names);
      forall i | 0 <= i < |names|
        ensures names[i] in defs && ReadsTable(get, m, names[i])
      {
        assert names[i] in names;
        assert IsCatalogKey(defs, SchemaKey(names[i])) && IsCatalogKey(defs, IndexesKey(names[i]));
      }
      LoadNamedBack(get, m, defs, names);
      assert Part(defs, names) == defs;
    }
  }

  /** Reads that are right or fail, with an error: the tables are loaded if and only if no
      catalog key fails, and otherwise the load is refused. */
  lemma LoadsIff(get: Get, m: Table, defs: Defs, names: seq<Bytes>)
    requires Catalogued(m, defs, names)
    requires forall k :: CatalogLike(k) ==> get(k) == Ok(Lookup(m, k)) || get(k) == Error
    ensures LoadTables(get) ==
      if forall k :: IsCatalogKey(defs, k) ==> get(k).Ok? then Ok(defs) else Error
  {
    hide RecordsOf, LoadNamed, Join, SplitAtCommas, Listable, CatalogLike;
    CatalogIsLike(defs);
    if forall k :: IsCatalogKey(defs, k) ==> get(k).Ok? {
      LoadsBack(get, m, defs, names);
    } else if get(CATALOG_KEY).Ok? {
      var k :| IsCatalogKey(defs, k) && !get(k).Ok?;
      var name :| name in defs && (k == SchemaKey(name) || k == IndexesKey(name));
      assert name in names;
      var i :| 0 <= i < |names| && names[i] == name;
      NamesListable(m, defs, names);
      SplitJoin(names);
      LoadNamedFails(get, names, i);
      NoPanic(get, names);
    }
  }

  lemma CatalogIsLike(defs: Defs)
    ensures forall k :: IsCatalogKey(defs, k) ==> CatalogLike(k)
  {
    forall k | IsCatalogKey(defs, k)
      ensures CatalogLike(k)
    {
      if k != CATALOG_KEY {
        var name :| name in defs && (k == SchemaKey(name) || k == IndexesKey(name));
        KeysApart(name, name);
      }
    }
  }

  // ----- CREATE TABLE -----

  /** The map after the first n of its three puts; an index over an unknown column stops it
      after two. The names are listed in the order the map of tables is walked in. */
  function Created(m: Table, names: seq<Bytes>, def: TableDef, n: nat): Table
    requires names != []
  {
    var one := m[CATALOG_KEY := Join(names)];
    var two := one[SchemaKey(def.name) := EncodeSchema(def.schema)];
    if n == 0 then m
    else if n == 1 then one
    else match EncodeCatalog(def.schema.columns, def.indexes)
      case Some(indexBytes) => if n == 2 then two else two[IndexesKey(def.name) := indexBytes]
      case None => two
  }

  lemma RecordsKept(m: Table, defs: Defs, names: seq<Bytes>, more: seq<Bytes>, def: TableDef)
    requires Catalogued(m, defs, names) && Storeable(def) && more != []
    ensures var defs' := defs[def.name := def];
      forall name :: name in defs' ==> defs'[name].name == name && RecordsOf(Created(m, more, def, 3), defs'[name])
  {
    hide EncodeSchema, EncodeCatalog, Join, CatalogLike, SchemaKey, IndexesKey, Storeable;
    var m', defs' := Created(m, more, def, 3), defs[def.name := def];
    assert EncodeCatalog(def.schema.columns, def.indexes).Some? by { Encodes(def); }
    KeysApart(def.name, def.name);
    forall name | name in defs'
      ensures defs'[name].name == name && RecordsOf(m', defs'[name])
    {
      KeysApart(name, def.name);
      KeysApart(def.name, name);
    }
  }

  /** All three puts leave the records of the old tables and the new one. */
  lemma CreateKeeps(m: Table, defs: Defs, names: seq<Bytes>, more: seq<Bytes>, def: TableDef)
    requires Catalogued(m, defs, names) && Storeable(def) && Walks(more, defs.Keys + {def.name})
    ensures more != [] && Catalogued(Created(m, more, def, 3), defs[def.name := def], more)
  {
    hide EncodeSchema, EncodeCatalog, Join, CatalogLike, SchemaKey, IndexesKey, Storeable;
    assert def.name in more;
    var m', defs' := Created(m, more, def, 3), defs[def.name := def];
    assert EncodeCatalog(def.schema.columns, def.indexes).Some? by { Encodes(def); }
    KeysApart(def.name, def.name);
    RecordsKept(m, defs, names, more, def);
    forall key | key in m' && CatalogLike(key)
      ensures IsCatalogKey(defs', key)
    {
      if key != SchemaKey(def.name) && key != IndexesKey(def.name) && key != CATALOG_KEY {
        assert IsCatalogKey(defs, key);
        var name :| name in defs && (key == SchemaKey(name) || key == IndexesKey(name));
        assert name in defs';
      }
    }
  }

  lemma Encodes(def: TableDef)
    requires Storeable(def)
    ensures EncodeCatalog(def.schema.columns, def.indexes).Some?
  {
  }

  // ----- CREATE TABLE cut short -----

  /** Index columns by position in the old columns all lie within the new ones. */
  predicate PositionsFit(columns: seq<Column>, newColumns: seq<Column>, names: seq<Bytes>) {
    forall i :: 0 <= i < |names| ==> LastPosition(columns, names[i]) < |newColumns|
  }

  lemma {:induction false} PositionsFitIff(columns: seq<Column>, newColumns: seq<Column>, names: seq<Bytes>, rest: Bytes)
    requires |columns| < U32_LIMIT && EncodePositions(columns, names).Some?
    ensures var r := DecodePositions(newColumns, EncodePositions(columns, names).value + rest, |names|);
      (r.Ok? <==> PositionsFit(columns, newColumns, names)) && (r.Ok? ==> r.value.rest == rest)
  {
    hide U32, ReadU32, LastPosition;
    if names == [] {
      assert [] + rest == rest;
    } else {
      var p, more := LastPosition(columns, names[0]), EncodePositions(columns, names[1..]).value;
      var buf := EncodePositions(columns, names).value + rest;
      U32RoundTrip(p);
      assert buf[..4] == U32(p) && buf[4..] == more + rest;
      PositionsFitIff(columns, newColumns, names[1..], rest);
      assert forall i :: 1 <= i < |names| ==> names[i] == names[1..][i - 1];
      assert forall i :: 0 <= i < |names[1..]| ==> names[1..][i] == names[i + 1];
    }
  }

  lemma IndexFitIff(columns: seq<Column>, newColumns: seq<Column>, index: SecondaryIndex, rest: Bytes)
    requires |columns| < U32_LIMIT && IndexFitsCatalog(index) && EncodeIndex(columns, index).Some?
    ensures var t := Take(EncodeIndex(columns, index).value + rest);
      && t.Some? && |t.value.rest| >= 4
      && var r := DecodePositions(newColumns, t.value.rest[4..], ReadU32(t.value.rest[..4]));
      (r.Ok? <==> PositionsFit(columns, newColumns, index.columns)) && (r.Ok? ==> r.value.rest == rest)
  {
    hide U32, ReadU32, Take, EncodePositions, DecodePositions, Framed, PositionsFit;
    var positions := EncodePositions(columns, index.columns).value;
    var more := U32(|index.columns|) + positions + rest;
    assert EncodeIndex(columns, index).value + rest == Framed(index.name) + more;
    TakeFramed(index.name, more);
    U32RoundTrip(|index.columns|);
    assert more[..4] == U32(|index.columns|) && more[4..] == positions + rest;
    PositionsFitIff(columns, newColumns, index.columns, rest);
  }

  predicate AllFit(columns: seq<Column>, newColumns: seq<Column>, indexes: seq<SecondaryIndex>) {
    forall i :: 0 <= i < |indexes| ==> PositionsFit(columns, newColumns, indexes[i].columns)
  }

  lemma {:induction false} IndexesFitIff(columns: seq<Column>, newColumns: seq<Column>, indexes: seq<SecondaryIndex>)
    requires |columns| < U32_LIMIT && EncodeIndexes(columns, indexes).Some?
    requires forall i :: 0 <= i < |indexes| ==> IndexFitsCatalog(indexes[i])
    ensures DecodeIndexes(newColumns, EncodeIndexes(columns, indexes).value, |indexes|).Ok? <==> AllFit(columns, newColumns, indexes)
  {
    hide ReadU32, Take, EncodeIndex, DecodePositions, PositionsFit;
    if indexes != [] {
      IndexFitIff(columns, newColumns, indexes[0], EncodeIndexes(columns, indexes[1..]).value);
      IndexesFitIff(columns, newColumns, indexes[1..]);
      assert forall i :: 1 <= i < |indexes| ==> indexes[i] == indexes[1..][i - 1];
      assert forall i :: 0 <= i < |indexes[1..]| ==> indexes[1..][i] == indexes[i + 1];
    }
  }

  /** An index catalog is read with other columns than it was written for. */
  lemma CatalogFitIff(def: TableDef, newColumns: seq<Column>)
    requires Storeable(def)
    ensures DecodeCatalog(newColumns, EncodeCatalog(def.schema.columns, def.indexes).value).Ok?
      <==> AllFit(def.schema.columns, newColumns, def.indexes)
  {
    hide U32, ReadU32, EncodeIndexes, DecodeIndexes, AllFit;
    var buf := EncodeCatalog(def.schema.columns, def.indexes).value;
    U32RoundTrip(|def.indexes|);
    assert buf[..4] == U32(|def.indexes|) && buf[4..] == EncodeIndexes(def.schema.columns, def.indexes).value;
    IndexesFitIff(def.schema.columns, newColumns, def.indexes);
  }

  /** A table whose schema or index catalog is missing. */
  lemma MissingFails(m: Table, name: Bytes)
    requires SchemaKey(name) !in m || IndexesKey(name) !in m
    ensures !LoadTable(MapGet(m), name).Ok?
  {
    hide DecodeColumns, SchemaKey, IndexesKey;
  }

  lemma OneFails(m: Table, names: seq<Bytes>, name: Bytes)
    requires names != [] && AllListable(names) && name in names && !LoadTable(MapGet(m), name).Ok?
    requires CATALOG_KEY in m && m[CATALOG_KEY] == Join(names)
    ensures !LoadTables(MapGet(m)).Ok?
  {
    hide LoadTable, Join, SplitAtCommas;
    var i :| 0 <= i < |names| && names[i] == name;
    SplitJoin(names);
    LoadNamedFails(MapGet(m), names, i);
  }

  /** When only the first put of CREATE TABLE was made, because the store stopped there, it can
      be opened again if and only if the table had been there before. */
  lemma OnePutIff(m: Table, defs: Defs, names: seq<Bytes>, more: seq<Bytes>, def: TableDef)
    requires Catalogued(m, defs, names) && Listable(def.name) && Walks(more, defs.Keys + {def.name})
    ensures more != []
    ensures LoadTables(MapGet(Created(m, more, def, 1))).Ok? <==> def.name in defs
  {
    hide RecordsOf, Join, SchemaKey, IndexesKey, CatalogLike, LoadTables, Listable;
    assert def.name in more;
    var m' := Created(m, more, def, 1);
    KeysApart(def.name, def.name);
    if def.name in defs {
      assert defs.Keys + {def.name} == defs.Keys;
      Relisted(m, defs, names, more);
      LoadsBack(MapGet(m'), m', defs, more);
    } else {
      MoreListable(m, defs, names, more, def.name);
      NotCatalogued(m, defs, names, def.name);
      MissingFails(m', def.name);
      OneFails(m', more, def.name);
    }
  }

  lemma Relisted(m: Table, defs: Defs, names: seq<Bytes>, more: seq<Bytes>)
    requires Catalogued(m, defs, names) && Walks(more, defs.Keys) && more != []
    ensures Catalogued(m[CATALOG_KEY := Join(more)], defs, more)
  {
    hide EncodeSchema, EncodeCatalog, Join, CatalogLike, SchemaKey, IndexesKey, Storeable;
    var m' := m[CATALOG_KEY := Join(more)];
    forall name | name in defs
      ensures RecordsOf(m', defs[name])
    {
      KeysApart(name, name);
    }
  }

  lemma MoreListable(m: Table, defs: Defs, names: seq<Bytes>, more: seq<Bytes>, name: Bytes)
    requires Catalogued(m, defs, names) && Listable(name) && Walks(more, defs.Keys + {name})
    ensures AllListable(more)
  {
    hide RecordsOf;
    forall i | 0 <= i < |more|
      ensures Listable(more[i])
    {
      assert more[i] in more;
      if more[i] in defs {
        RecordsThere(m, defs[more[i]]);
      }
    }
  }

  lemma NotCatalogued(m: Table, defs: Defs, names: seq<Bytes>, name: Bytes)
    requires Catalogued(m, defs, names) && name !in defs
    ensures SchemaKey(name) !in m && IndexesKey(name) !in m
  {
    hide RecordsOf, SchemaKey, IndexesKey, CatalogLike;
    KeysApart(name, name);
    forall other | other in defs
      ensures SchemaKey(other) != SchemaKey(name) && IndexesKey(other) != IndexesKey(name)
      ensures SchemaKey(other) != IndexesKey(name) && IndexesKey(other) != SchemaKey(name)
    {
      KeysApart(other, name);
      KeysApart(name, other);
    }
  }

  /** When the third put is missing, because the store stopped there or because an index names
      an unknown column, it can be opened again if and only if the table had been there before
      and the columns of its old indexes are positions of the new schema. */
  lemma TwoPutsIff(m: Table, defs: Defs, names: seq<Bytes>, more: seq<Bytes>, def: TableDef)
    requires Catalogued(m, defs, names) && Listable(def.name) && Walks(more, defs.Keys + {def.name})
    requires def.schema.pkPosition < U32_LIMIT && forall i :: 0 <= i < |def.schema.columns| ==> ColumnFits(def.schema.columns[i])
    ensures more != []
    ensures LoadTables(MapGet(Created(m, more, def, 2))).Ok? <==>
      def.name in defs && AllFit(defs[def.name].schema.columns, def.schema.columns, defs[def.name].indexes)
  {
    hide RecordsOf, Join, SchemaKey, IndexesKey, CatalogLike, LoadTables, Listable, EncodeSchema, EncodeCatalog, AllFit, LoadTable,
      Storeable, DecodeCatalog, DecodeSchema;
    assert def.name in more;
    var m' := Created(m, more, def, 2);
    KeysApart(def.name, def.name);
    MoreListable(m, defs, names, more, def.name);
    if def.name in defs {
      assert defs.Keys + {def.name} == defs.Keys;
      LoadsNewSchema(m, defs, names, more, def);
    } else {
      NotCatalogued(m, defs, names, def.name);
      MissingFails(m', def.name);
      OneFails(m', more, def.name);
    }
  }

  lemma NewSchemaTable(m: Table, was: TableDef, def: TableDef, m': Table)
    requires RecordsOf(m, was) && def.name == was.name
    requires def.schema.pkPosition < U32_LIMIT && forall i :: 0 <= i < |def.schema.columns| ==> ColumnFits(def.schema.columns[i])
    requires SchemaKey(def.name) in m' && m'[SchemaKey(def.name)] == EncodeSchema(def.schema)
    requires IndexesKey(def.name) in m' && m'[IndexesKey(def.name)] == m[IndexesKey(def.name)]
    ensures LoadTable(MapGet(m'), def.name).Ok? <==> AllFit(was.schema.columns, def.schema.columns, was.indexes)
  {
    hide SchemaKey, IndexesKey, EncodeSchema, DecodeSchema, EncodeCatalog, DecodeCatalog, AllFit, Listable, ColumnFits, IndexFitsCatalog;
    SchemaRoundTrip(def.schema);
    CatalogFitIff(was, def.schema.columns);
  }

  lemma LoadsNewSchema(m: Table, defs: Defs, names: seq<Bytes>, more: seq<Bytes>, def: TableDef)
    requires Catalogued(m, defs, names) && def.name in defs && Walks(more, defs.Keys) && AllListable(more) && more != []
    requires def.schema.pkPosition < U32_LIMIT && forall i :: 0 <= i < |def.schema.columns| ==> ColumnFits(def.schema.columns[i])
    ensures LoadTables(MapGet(Created(m, more, def, 2))).Ok? <==>
      AllFit(defs[def.name].schema.columns, def.schema.columns, defs[def.name].indexes)
  {
    hide RecordsOf, Join, SchemaKey, IndexesKey, CatalogLike, Listable, EncodeSchema, EncodeCatalog, AllFit, LoadTable, SplitAtCommas, ColumnFits,
      LoadNamed;
    var m' := Created(m, more, def, 2);
    KeysApart(def.name, def.name);
    RecordsThere(m, defs[def.name]);
    NewSchemaTable(m, defs[def.name], def, m');
    SplitJoin(more);
    var loaded := LoadTable(MapGet(m'), def.name);
    assert def.name in more;
    if loaded.Ok? {
      var defs' := defs[def.name := loaded.value];
      forall i | 0 <= i < |more|
        ensures more[i] in defs' && LoadTable(MapGet(m'), more[i]) == Ok(defs'[more[i]])
      {
        assert more[i] in more;
        if more[i] != def.name {
          KeysApart(more[i], def.name);
          KeysApart(def.name, more[i]);
          RecordsThere(m, defs[more[i]]);
          SameRecords(m, m', defs[more[i]]);
        }
      }
      LoadNamedIs(MapGet(m'), defs', more);
    } else {
      OneFails(m', more, def.name);
    }
  }

  lemma SameRecords(m: Table, m': Table, def: TableDef)
    requires RecordsOf(m, def)
    requires SchemaKey(def.name) in m' && m'[SchemaKey(def.name)] == m[SchemaKey(def.name)]
    requires IndexesKey(def.name) in m' && m'[IndexesKey(def.name)] == m[IndexesKey(def.name)]
    ensures LoadTable(MapGet(m'), def.name) == Ok(def)
  {
    hide SchemaKey, IndexesKey, EncodeSchema, EncodeCatalog, LoadTable, Storeable;
    LoadTableBack(MapGet(m'), m', def);
  }
}
