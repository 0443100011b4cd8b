/** The loops behind SELECT and INSERT, each computing the function the query theorems are about
    (db/select.go, db/db.go). */
module QueryLoops {
  import opened ByteStrings
  import opened Tables
  import opened TableReaders
  import opened Rows
  import opened Catalog
  import opened SecondaryIndexes
  import opened IndexQueries

  // ----- filterQueryConditions -----

  lemma {:induction false} FilterOneStays(rows: seq<Row>, p: nat, c: Condition, n: nat)
    requires n <= |rows| && !FilterOne(rows[..n], p, c).Ok?
    ensures FilterOne(rows, p, c) == FilterOne(rows[..n], p, c)
    decreases |rows| - n
  {
    hide Holds;
    if n < |rows| {
      assert rows[..n + 1][..n] == rows[..n];
      FilterOneStays(rows, p, c, n + 1);
    } else {
      assert rows[..n] == rows;
    }
  }

  method FilterByCondition(rows: seq<Row>, p: nat, c: Condition) returns (r: Outcome<seq<Row>>)
    ensures r == FilterOne(rows, p, c)
  {
    hide Holds;
    var filtered := [];
    for i := 0 to |rows|
      invariant FilterOne(rows[..i], p, c) == Ok(filtered)
    {
      assert rows[..i + 1][..i] == rows[..i];
      match Holds(rows[i], p, c)
      case Ok(holds) =>
        if holds {
          filtered := filtered + [rows[i]];
        }
      case Error =>
        FilterOneStays(rows, p, c, i + 1);
        return Error;
      case Panic =>
        FilterOneStays(rows, p, c, i + 1);
        return Panic;
    }
    assert rows[..|rows|] == rows;
    r := Ok(filtered);
  }

  lemma {:induction false} FilterStays(columns: seq<Column>, query: Query, covered: seq<Bytes>, rows: seq<Row>, n: nat)
    requires n <= |query| && !Filter(columns, query[..n], covered, rows).Ok?
    ensures Filter(columns, query, covered, rows) == Filter(columns, query[..n], covered, rows)
    decreases |query| - n
  {
    hide FilterOne, PositionOf;
    if n < |query| {
      assert query[..n + 1][..n] == query[..n];
      FilterStays(columns, query, covered, rows, n + 1);
    } else {
      assert query[..n] == query;
    }
  }

  method FilterQueryConditions(columns: seq<Column>, query: Query, covered: seq<Bytes>, rows: seq<Row>)
    returns (r: Outcome<seq<Row>>)
    ensures r == Filter(columns, query, covered, rows)
  {
    hide FilterOne, PositionOf;
    var result := rows;
    for i := 0 to |query|
      invariant Filter(columns, query[..i], covered, rows) == Ok(result)
    {
      assert query[..i + 1][..i] == query[..i];
      if query[i].column in covered {
        continue;
      }
      var p := PositionOf(columns, query[i].column);
      if p == -1 {
        FilterStays(columns, query, covered, rows, i + 1);
        return Error;
      }
      var filtered := FilterByCondition(result, p, query[i]);
      if !filtered.Ok? {
        FilterStays(columns, query, covered, rows, i + 1);
        return filtered;
      }
      result := filtered.value;
    }
    assert query[..|query|] == query;
    r := Ok(result);
  }

  // ----- getSecondaryIndexForQueryIfApplicable -----

  method CoverIndex(query: Query, index: SecondaryIndex) returns (c: Choice)
    ensures c == ChoiceOf(query, index)
  {
    var covered := [];
    for k := 0 to |index.columns|
      invariant covered == index.columns[..k]
      invariant forall i :: 0 <= i < k ==> Asked(query, index.columns[i])
    {
      var found := false;
      for i := 0 to |query|
        invariant found <==> Asked(query[..i], index.columns[k])
      {
        if query[i].column == index.columns[k] {
          found := true;
          assert query[..i + 1][i] == query[i];
        }
        assert query[..i + 1] == query[..i] + [query[i]];
      }
      assert query[..|query|] == query;
      if !found {
        CoveredIs(query, index.columns, k);
        return Choice(index, covered);
      }
      covered := covered + [index.columns[k]];
    }
    CoveredIs(query, index.columns, |index.columns|);
    c := Choice(index, covered);
  }

  lemma {:induction false} CoveredIs(query: Query, names: seq<Bytes>, k: nat)
    requires k <= |names| && (forall i :: 0 <= i < k ==> Asked(query, names[i]))
    requires k < |names| ==> !Asked(query, names[k])
    ensures CoveredBy(query, names) == names[..k]
  {
    hide Asked;
    if k > 0 {
      CoveredIs(query, names[1..], k - 1);
      assert names[..k] == [names[0]] + names[1..][..k - 1];
    }
  }

  method GetSecondaryIndexForQuery(query: Query, indexes: seq<SecondaryIndex>) returns (r: Option<Choice>)
    ensures r == Choose(query, indexes)
  {
    hide CoveredBy;
    r := None;
    for i := 0 to |indexes|
      invariant Choose(query, indexes) == ChooseFrom(query, indexes[i..], r)
    {
      assert indexes[i..][1..] == indexes[i + 1..];
      var c := CoverIndex(query, indexes[i]);
      if c.covered != [] {
        r := Some(c);
        if c.Whole() {
          return;
        }
      }
    }
  }

  // ----- the scans -----

  lemma {:induction false} ReadRowsStays(columns: seq<Column>, store: Table, done: seq<Bytes>, more: seq<Bytes>)
    requires !ReadRows(columns, store, done).Ok?
    ensures ReadRows(columns, store, done + more) == ReadRows(columns, store, done)
  {
    hide DeserialiseRow;
    if more == [] {
      assert done + more == done;
    } else {
      var n := |more| - 1;
      assert (done + more)[..|done + more| - 1] == done + more[..n];
      ReadRowsStays(columns, store, done, more[..n]);
    }
  }

  lemma WalksConcat<T(!new)>(a: seq<T>, b: seq<T>, s: set<T>, t: set<T>)
    requires Walks(a, s) && Walks(b, t) && s !! t
    ensures Walks(a + b, s + t)
  {
    assert forall x :: x in a + b <==> x in a || x in b;
    forall i, j | 0 <= i < j < |a + b|
      ensures (a + b)[i] != (a + b)[j]
    {
      assert (a + b)[i] in (if i < |a| then a else b) && (a + b)[j] in (if j < |a| then a else b);
    }
  }

  lemma ReadRowsNext(columns: seq<Column>, store: Table, done: seq<Bytes>, key: Bytes, rows: seq<Row>)
    requires ReadRows(columns, store, done) == Ok(rows)
    ensures ReadRows(columns, store, done + [key]) == match DeserialiseRow(columns, Lookup(store, key))
      case Ok(row) => Ok(rows + [row])
      case Error => Error
      case Panic => Panic
  {
    hide DeserialiseRow, Lookup;
    assert (done + [key])[..|done|] == done;
  }

  lemma {:induction false} ReadRowsConcat(columns: seq<Column>, store: Table, a: seq<Bytes>, b: seq<Bytes>)
    requires ReadRows(columns, store, a).Ok?
    ensures ReadRows(columns, store, a + b) == PrependRows(ReadRows(columns, store, a).value, ReadRows(columns, store, b))
  {
    hide DeserialiseRow;
    var done := ReadRows(columns, store, a).value;
    if b == [] {
      assert a + b == a && done + [] == done;
    } else {
      var n := |b| - 1;
      assert (a + b)[..|a + b| - 1] == a + b[..n];
      ReadRowsConcat(columns, store, a, b[..n]);
      var front, row := ReadRows(columns, store, b[..n]), DeserialiseRow(columns, Lookup(store, b[n]));
      if front.Ok? && row.Ok? {
        assert done + front.value + [row.value] == done + (front.value + [row.value]);
      }
    }
  }

  function PrependRows(done: seq<Row>, rest: Outcome<seq<Row>>): Outcome<seq<Row>> {
    match rest
    case Ok(more) => Ok(done + more)
    case other => other
  }

  lemma {:induction false} ReadRowsIn(columns: seq<Column>, a: Table, b: Table, keys: seq<Bytes>)
    requires forall i :: 0 <= i < |keys| ==> Lookup(a, keys[i]) == Lookup(b, keys[i])
    ensures ReadRows(columns, a, keys) == ReadRows(columns, b, keys)
  {
    hide DeserialiseRow, Lookup;
    if keys != [] {
      ReadRowsIn(columns, a, b, keys[..|keys| - 1]);
    }
  }

  lemma ReadNothing(columns: seq<Column>, store: Table)
    ensures ReadRows(columns, store, []) == Ok([])
  {
  }

  /** One of the two loops of `fullTableScan`: the rows of a map, except under some keys. */
  method ReadMap(columns: seq<Column>, m: Table, skip: set<Bytes>) returns (r: Outcome<seq<Row>>, ghost order: seq<Bytes>)
    ensures Walks(order, m.Keys - skip) && r == ReadRows(columns, m, order)
  {
    hide DeserialiseRow, ReadRows;
    order := [];
    var rows := [];
    ReadNothing(columns, m);
    var left := m.Keys;
    while left != {}
      invariant left <= m.Keys && Walks(order, m.Keys - skip - left)
      invariant ReadRows(columns, m, order) == Ok(rows)
      decreases |left|
    {
      var key :| key in left;
      ghost var seen := m.Keys - skip - left;
      left := left - {key};
      if key in skip {
        assert m.Keys - skip - left == seen;
        continue;
      }
      var row := DeserialiseRow(columns, m[key]);
      WalksAppend(order, seen, key);
      ReadRowsNext(columns, m, order, key, rows);
      assert m.Keys - skip - left == seen + {key};
      order := order + [key];
      if !row.Ok? {
        ghost var rest := SomeWalk(left - skip);
        WalksConcat(order, rest, seen + {key}, left - skip);
        ReadRowsStays(columns, m, order, rest);
        assert seen + {key} + (left - skip) == m.Keys - skip;
        order := order + rest;
        r := if row.Error? then Error else Panic;
        return;
      }
      rows := rows + [row.value];
    }
    assert m.Keys - skip - left == m.Keys - skip;
    r := Ok(rows);
  }

  /** `fullTableScan`: the memtable's rows, then those of the files the memtable does not
      have. */
  method FullTableScan(columns: seq<Column>, mem: Table, files: Table) returns (r: Outcome<seq<Row>>)
    ensures exists order :: Walks(order, (files + mem).Keys) && r == ReadRows(columns, files + mem, order)
  {
    hide DeserialiseRow, ReadRows, Walks;
    ghost var store := files + mem;
    ghost var memOrder, fileOrder;
    var memRows;
    memRows, memOrder := ReadMap(columns, mem, {});
    WalkedLookup(memOrder, mem.Keys - {}, mem, store);
    ReadRowsIn(columns, mem, store, memOrder);
    assert mem.Keys - {} + (files.Keys - mem.Keys) == store.Keys;
    if !memRows.Ok? {
      fileOrder := SomeWalk(files.Keys - mem.Keys);
      WalksConcat(memOrder, fileOrder, mem.Keys - {}, files.Keys - mem.Keys);
      ReadRowsStays(columns, store, memOrder, fileOrder);
      assert Walks(memOrder + fileOrder, store.Keys) && memRows == ReadRows(columns, store, memOrder + fileOrder);
      return memRows;
    }
    var fileRows;
    fileRows, fileOrder := ReadMap(columns, files, mem.Keys);
    WalkedLookup(fileOrder, files.Keys - mem.Keys, files, store);
    ReadRowsIn(columns, files, store, fileOrder);
    WalksConcat(memOrder, fileOrder, mem.Keys - {}, files.Keys - mem.Keys);
    ReadRowsConcat(columns, store, memOrder, fileOrder);
    r := if fileRows.Ok? then Ok(memRows.value + fileRows.value) else fileRows;
    assert Walks(memOrder + fileOrder, store.Keys) && r == ReadRows(columns, store, memOrder + fileOrder);
  }

  lemma WalkedLookup(order: seq<Bytes>, keys: set<Bytes>, a: Table, b: Table)
    requires Walks(order, keys) && forall k :: k in keys ==> k in a && k in b && a[k] == b[k]
    ensures forall i :: 0 <= i < |order| ==> Lookup(a, order[i]) == Lookup(b, order[i])
  {
    forall i | 0 <= i < |order|
      ensures Lookup(a, order[i]) == Lookup(b, order[i])
    {
      assert order[i] in order;
    }
  }

  method LastParts(keys: set<Bytes>, before: set<Bytes>) returns (pkSet: set<Bytes>)
    ensures pkSet == before + PartsOf(keys)
  {
    hide LastPart;
    pkSet := before;
    var left := keys;
    while left != {}
      invariant left <= keys && pkSet == before + PartsOf(keys - left)
      decreases |left|
    {
      var key :| key in left;
      assert keys - (left - {key}) == keys - left + {key};
      pkSet := pkSet + {LastPart(key)};
      left := left - {key};
    }
    assert keys - left == keys;
  }

  method ListOf(pkSet: set<Bytes>) returns (pks: seq<Bytes>)
    ensures Walks(pks, pkSet)
  {
    pks := [];
    var left := pkSet;
    while left != {}
      invariant left <= pkSet && Walks(pks, pkSet - left)
      decreases |left|
    {
      var pk :| pk in left;
      WalksAppend(pks, pkSet - left, pk);
      assert pkSet - (left - {pk}) == pkSet - left + {pk};
      pks := pks + [pk];
      left := left - {pk};
    }
    assert pkSet - left == pkSet;
  }

  /** `secondaryIndexPrefixScan`: the last parts of all keys found, each once. */
  method SecondaryIndexPrefixScan(mem: Table, files: Table) returns (pks: seq<Bytes>)
    ensures Walks(pks, PartsOf((files + mem).Keys))
  {
    hide LastPart, Walks;
    var pkSet := LastParts(files.Keys, {});
    pkSet := LastParts(mem.Keys, pkSet);
    assert pkSet == PartsOf((files + mem).Keys);
    pks := ListOf(pkSet);
  }

  // ----- deserializeRowValues -----

  function PrependValues(done: Row, rest: Outcome<Row>): Outcome<Row> {
    match rest
    case Ok(more) => Ok(done + more)
    case other => other
  }

  lemma PrependMore(done: Row, more: Row, rest: Outcome<Row>)
    ensures PrependValues([], rest) == rest
    ensures PrependValues(done + more, rest) == PrependValues(done, PrependValues(more, rest))
  {
    if rest.Ok? {
      assert [] + rest.value == rest.value && (done + more) + rest.value == done + (more + rest.value);
    }
  }

  method DeserialiseRowValues(columns: seq<Column>, buf: Bytes) returns (r: Outcome<Row>)
    ensures r == DeserialiseRow(columns, buf)
  {
    hide ReadU32, Decimal, Binary, Take;
    var i, values := 0, [];
    PrependMore([], [], DeserialiseRow(columns, buf));
    assert buf[0..] == buf && columns[0..] == columns;
    for k := 0 to |columns|
      invariant i <= |buf|
      invariant DeserialiseRow(columns, buf) == PrependValues(values, DeserialiseRow(columns[k..], buf[i..]))
    {
      assert columns[k..][1..] == columns[k + 1..];
      ghost var rest := buf[i..];
      ghost var step := DecodeValue(columns[k].dataType, rest);
      ghost var before := values;
      match columns[k].dataType {
        case Int =>
          if i + 4 > |buf| {
            return Panic;
          }
          assert rest[..4] == buf[i..i + 4] && rest[4..] == buf[i + 4..];
          values := values + [Decimal(ReadU32(buf[i..i + 4]))];
          i := i + 4;
        case Str =>
          var value := ExtractValue(buf, i);
          if value.None? {
            return Panic;
          }
          values := values + [value.value];
          i := i + 4 + |value.value|;
        case Bool =>
          if i == |buf| {
            return Panic;
          }
          assert rest[1..] == buf[i + 1..];
          values := values + [Binary(buf[i])];
          i := i + 1;
        case Other(_) =>
          assert before + [] == before;
      }
      ghost var more := if step.value.value.Some? then [step.value.value.value] else [];
      assert values == before + more;
      PrependMore(before, more, DeserialiseRow(columns[k + 1..], buf[i..]));
    }
    assert columns[|columns|..] == [];
    assert values + [] == values;
    r := Ok(values);
  }

  // ----- selectFromTable -----

  /** `getRowForPrimaryKey` for each key in turn, through any `Get`; its failures end it. */
  function ReadRowsBy(columns: seq<Column>, get: Bytes -> Outcome<Bytes>, keys: seq<Bytes>): Outcome<seq<Row>> {
    if keys == [] then Ok([])
    else
      var n := |keys| - 1;
      match ReadRowsBy(columns, get, keys[..n])
      case Ok(rows) =>
        (match get(keys[n])
         case Ok(value) =>
           (match DeserialiseRow(columns, value)
            case Ok(row) => Ok(rows + [row])
            case Error => Error
            case Panic => Panic)
         case Error => Error
         case Panic => Panic)
      case other => other
  }

  lemma {:induction false} ReadRowsByStays(columns: seq<Column>, get: Bytes -> Outcome<Bytes>, keys: seq<Bytes>, n: nat)
    requires n <= |keys| && !ReadRowsBy(columns, get, keys[..n]).Ok?
    ensures ReadRowsBy(columns, get, keys) == ReadRowsBy(columns, get, keys[..n])
    decreases |keys| - n
  {
    hide DeserialiseRow;
    if n < |keys| {
      assert keys[..n + 1][..n] == keys[..n];
      ReadRowsByStays(columns, get, keys, n + 1);
    } else {
      assert keys[..n] == keys;
    }
  }

  method GetRows(columns: seq<Column>, name: Bytes, pks: seq<Bytes>, get: Bytes -> Outcome<Bytes>) returns (r: Outcome<seq<Row>>)
    ensures r == ReadRowsBy(columns, get, RowKeys(name, pks))
  {
    hide DeserialiseRow, RowKey;
    ghost var keys := RowKeys(name, pks);
    var rows := [];
    for i := 0 to |pks|
      invariant ReadRowsBy(columns, get, keys[..i]) == Ok(rows)
    {
      assert keys[..i + 1][..i] == keys[..i];
      var value := get(RowKey(name, pks[i]));
      if !value.Ok? {
        ReadRowsByStays(columns, get, keys, i + 1);
        return if value.Error? then Error else Panic;
      }
      var row := DeserialiseRow(columns, value.value);
      if !row.Ok? {
        ReadRowsByStays(columns, get, keys, i + 1);
        return if row.Error? then Error else Panic;
      }
      rows := rows + [row.value];
    }
    assert keys[..|pks|] == keys;
    r := Ok(rows);
  }

  lemma NoneCovered(names: seq<Bytes>)
    ensures CoveredBy([], names) == []
  {
  }

  lemma NoConditions(indexes: seq<SecondaryIndex>)
    ensures Choose([], indexes) == None
  {
    hide Choose;
    ChooseSpec([], indexes);
    forall n | 0 <= n < |indexes|
      ensures ChoiceOf([], indexes[n]).covered == []
    {
      NoneCovered(indexes[n].columns);
    }
  }

  /** How a SELECT reads the store: by key, and by prefix from memtable and files. */
  datatype Reads = Reads(get: Bytes -> Outcome<Bytes>, memScan: Bytes -> Table, fileScan: Bytes -> Outcome<Table>)

  function Filtered(def: TableDef, query: Query, covered: seq<Bytes>, rows: Outcome<seq<Row>>): Outcome<seq<Row>> {
    match rows
    case Ok(found) => Filter(def.schema.columns, query, covered, found)
    case other => other
  }

  /** `selectFromTable` through such reads, walking the maps in some order. */
  function SelectBy(def: TableDef, via: Reads, query: Query, order: seq<Bytes>): Outcome<seq<Row>> {
    var columns := def.schema.columns;
    if def.schema.pkPosition >= |columns| || columns[def.schema.pkPosition].name == [] then Error
    else match PlanOf(def, query)
      case Point(pk) => ReadRowsBy(columns, via.get, RowKeys(def.name, [pk]))
      case Scan =>
        (match via.fileScan(def.name + [COLON])
         case Ok(files) => Filtered(def, query, [], ReadRows(columns, files + via.memScan(def.name + [COLON]), order))
         case Error => Error
         case Panic => Panic)
      case Indexed(choice) =>
        (match via.fileScan(QueryPrefix(def, query, choice.index))
         case Ok(_) =>
           var rows := ReadRowsBy(columns, via.get, RowKeys(def.name, order));
           if choice.Whole() then rows else Filtered(def, query, choice.covered, rows)
         case Error => Error
         case Panic => Panic)
  }

  /** The keys it walks. */
  ghost predicate WalkedBy(def: TableDef, via: Reads, query: Query, order: seq<Bytes>)
    requires def.schema.pkPosition < |def.schema.columns|
  {
    match PlanOf(def, query)
    case Point(_) => true
    case Scan =>
      var prefix := def.name + [COLON];
      via.fileScan(prefix).Ok? ==> Walks(order, (via.fileScan(prefix).value + via.memScan(prefix)).Keys)
    case Indexed(choice) =>
      var prefix := QueryPrefix(def, query, choice.index);
      via.fileScan(prefix).Ok? ==> Walks(order, PartsOf((via.fileScan(prefix).value + via.memScan(prefix)).Keys))
  }

  method SelectFromTable(def: TableDef, via: Reads, query: Query) returns (r: Outcome<seq<Row>>)
    ensures def.schema.pkPosition >= |def.schema.columns| ==> r == Error
    ensures def.schema.pkPosition < |def.schema.columns| ==>
      (r == Error && def.schema.columns[def.schema.pkPosition].name == []) ||
      exists order :: WalkedBy(def, via, query, order) && r == SelectBy(def, via, query, order)
  {
    hide ReadRows, ReadRowsBy, Filter, Choose, Walks, IndexKey, LastPart, RowKeys;
    var columns := def.schema.columns;
    if def.schema.pkPosition >= |columns| {
      return Error;
    }
    var pkColumnName := columns[def.schema.pkPosition].name;
    if pkColumnName == [] {
      return Error;
    }
    if |query| == 1 && query[0].column == pkColumnName && query[0].op == Equals {
      r := GetRows(columns, def.name, [query[0].value], via.get);
      assert WalkedBy(def, via, query, []) && r == SelectBy(def, via, query, []);
      return;
    }
    var choice := None;
    if query != [] {
      choice := GetSecondaryIndexForQuery(query, def.indexes);
    } else {
      NoConditions(def.indexes);
    }
    if choice.None? {
      r := SelectByScan(def, via, query);
    } else {
      r := SelectByIndex(def, via, query, choice.value);
    }
  }

  method SelectByScan(def: TableDef, via: Reads, query: Query) returns (r: Outcome<seq<Row>>)
    requires def.schema.pkPosition < |def.schema.columns| && def.schema.columns[def.schema.pkPosition].name != []
    requires PlanOf(def, query) == Scan
    ensures exists order :: WalkedBy(def, via, query, order) && r == SelectBy(def, via, query, order)
  {
    hide ReadRows, ReadRowsBy, Filter, Walks, PlanOf;
    var prefix := def.name + [COLON];
    var memTableMap, ssTableMap := via.memScan(prefix), via.fileScan(prefix);
    if !ssTableMap.Ok? {
      r := if ssTableMap.Error? then Error else Panic;
      assert WalkedBy(def, via, query, []) && r == SelectBy(def, via, query, []);
      return;
    }
    r := FullTableScan(def.schema.columns, memTableMap, ssTableMap.value);
    ghost var both := ssTableMap.value + memTableMap;
    ghost var order :| Walks(order, both.Keys) && r == ReadRows(def.schema.columns, both, order);
    if r.Ok? {
      r := FilterQueryConditions(def.schema.columns, query, [], r.value);
    }
    assert WalkedBy(def, via, query, order) && r == SelectBy(def, via, query, order);
  }

  method SelectByIndex(def: TableDef, via: Reads, query: Query, choice: Choice) returns (r: Outcome<seq<Row>>)
    requires def.schema.pkPosition < |def.schema.columns| && def.schema.columns[def.schema.pkPosition].name != []
    requires PlanOf(def, query) == Indexed(choice)
    ensures exists order :: WalkedBy(def, via, query, order) && r == SelectBy(def, via, query, order)
  {
    hide ReadRows, ReadRowsBy, Filter, Walks, PlanOf, IndexKey, LastPart, RowKeys;
    var prefix := QueryPrefix(def, query, choice.index);
    var memTableMap, ssTableMap := via.memScan(prefix), via.fileScan(prefix);
    if !ssTableMap.Ok? {
      r := if ssTableMap.Error? then Error else Panic;
      assert WalkedBy(def, via, query, []) && r == SelectBy(def, via, query, []);
      return;
    }
    var pks := SecondaryIndexPrefixScan(memTableMap, ssTableMap.value);
    r := GetRows(def.schema.columns, def.name, pks, via.get);
    if r.Ok? && !choice.Whole() {
      r := FilterQueryConditions(def.schema.columns, query, choice.covered, r.value);
    }
    assert WalkedBy(def, via, query, pks) && r == SelectBy(def, via, query, pks);
  }

  // ----- insertIntoTable -----

  method GetSecondaryIndexKeyOrPrefix(table: Bytes, index: Bytes, values: seq<Bytes>, pk: Bytes) returns (key: Bytes)
    ensures key == IndexKey(table, index, values, pk)
  {
    hide Tail;
    key := INDEX + Tail([table, index]);
    assert [table, index] + values[..0] == [table, index];
    for i := 0 to |values|
      invariant key == INDEX + Tail([table, index] + values[..i])
    {
      var before := [table, index] + values[..i];
      TailConcat(before, [values[i]]);
      TailOne(values[i]);
      assert [table, index] + values[..i + 1] == before + [values[i]];
      key := key + ([COLON] + values[i]);
    }
    assert values[..|values|] == values;
    key := key + (if pk != [] then [COLON] + pk else [COLON]);
  }

  lemma TailOne(part: Bytes)
    ensures Tail([part]) == [COLON] + part
  {
    assert [part][1..] == [];
  }

  datatype IndexedValues = IndexedValues(columnValues: seq<Bytes>, pk: Bytes)

  method GetIndexAndPrimaryKeyColumnValues(def: TableDef, names: seq<Bytes>, values: Row) returns (r: Option<IndexedValues>)
    requires |def.schema.columns| == |values|
    ensures r == var columnValues := IndexValues(def.schema.columns, names, values);
      if |columnValues| != |names| || names == [] || PkValue(def, values) == [] then None
      else Some(IndexedValues(columnValues, PkValue(def, values)))
  {
    hide ValuesOf;
    var columns := def.schema.columns;
    var colValues, pkColValue := [], [];
    for k := 0 to |names|
      invariant colValues == IndexValues(columns, names[..k], values)
      invariant pkColValue == if k == 0 then [] else PkValue(def, values)
    {
      var found := [];
      NoValuesYet(columns, names[k], values);
      for i := 0 to |columns|
        invariant found == ValuesOf(columns[..i], names[k], values[..i])
        invariant pkColValue == if k > 0 || def.schema.pkPosition < i then PkValue(def, values) else []
      {
        ValuesOfNext(columns, names[k], values, i);
        if columns[i].name == names[k] {
          found := found + [values[i]];
        }
        if i == def.schema.pkPosition {
          pkColValue := values[i];
        }
      }
      assert columns[..|columns|] == columns && values[..|values|] == values;
      assert names[..k + 1][..k] == names[..k];
      colValues := colValues + found;
    }
    assert names[..|names|] == names;
    if |colValues| != |names| || pkColValue == [] {
      return None;
    }
    r := Some(IndexedValues(colValues, pkColValue));
  }

  lemma NoValuesYet(columns: seq<Column>, name: Bytes, values: Row)
    requires |columns| == |values|
    ensures ValuesOf(columns[..0], name, values[..0]) == []
  {
  }

  lemma ValuesOfNext(columns: seq<Column>, name: Bytes, values: Row, i: nat)
    requires |columns| == |values| && i < |columns|
    ensures ValuesOf(columns[..i + 1], name, values[..i + 1]) ==
      ValuesOf(columns[..i], name, values[..i]) + if columns[i].name == name then [values[i]] else []
  {
    assert columns[..i + 1][..i] == columns[..i] && values[..i + 1][..i] == values[..i];
  }

  lemma {:induction false} IndexWritesStay(def: TableDef, values: Row, n: nat)
    requires n <= |def.indexes| && |def.schema.columns| == |values| && IndexWrites(def, values, n).None?
    ensures IndexWrites(def, values, |def.indexes|).None?
    decreases |def.indexes| - n
  {
    hide IndexValues, IndexKey;
    if n < |def.indexes| {
      IndexWritesStay(def, values, n + 1);
    }
  }

  method UpdateSecondaryIndexes(def: TableDef, values: Row) returns (r: Option<Table>)
    requires |def.schema.columns| == |values|
    ensures r == IndexWrites(def, values, |def.indexes|)
  {
    hide IndexValues, IndexKey;
    var writes: Table := map[];
    for i := 0 to |def.indexes|
      invariant IndexWrites(def, values, i) == Some(writes)
    {
      var index := def.indexes[i];
      var found := GetIndexAndPrimaryKeyColumnValues(def, index.columns, values);
      if found.None? {
        IndexWritesStay(def, values, i + 1);
        return None;
      }
      var key := GetSecondaryIndexKeyOrPrefix(def.name, index.name, found.value.columnValues, found.value.pk);
      writes := writes[key := []];
    }
    r := Some(writes);
  }

  /** What one INSERT puts into the transaction it commits. */
  method InsertIntoTable(def: TableDef, values: Row) returns (r: Option<Table>)
    ensures r == InsertWrites(def, values)
  {
    hide IndexWrites, SerialiseRow;
    if |values| != |def.schema.columns| {
      return None;
    }
    var row := SerialiseRowLoop(def.schema.columns, values);
    if row.None? {
      return None;
    }
    var entries := UpdateSecondaryIndexes(def, values);
    if entries.None? {
      return None;
    }
    r := Some(map[RowKey(def.name, PkValue(def, values)) := row.value] + entries.value);
  }
}
