/** Rows and secondary index entries as keys of one store, and how every INSERT keeps them in
    step (db/db.go). */
module SecondaryIndexes {
  import opened ByteStrings
  import opened Tables
  import opened Rows
  import opened Catalog

  const COLON: byte := 58
  const INDEX: Bytes := [105, 110, 100, 101, 120]

  datatype TableDef = TableDef(name: Bytes, schema: Schema, indexes: seq<SecondaryIndex>)

  // ----- keys made of colon-separated parts -----

  predicate ColonFree(s: Bytes) {
    forall i :: 0 <= i < |s| ==> s[i] != COLON
  }

  function Tail(parts: seq<Bytes>): Bytes {
    if parts == [] then [] else [COLON] + parts[0] + Tail(parts[1..])
  }

  function RowKey(table: Bytes, pk: Bytes): Bytes {
    table + [COLON] + pk
  }

  /** `getSecondaryIndexKeyOrPrefix`: with no primary key the result ends in a colon. */
  function IndexKey(table: Bytes, index: Bytes, values: seq<Bytes>, pk: Bytes): Bytes {
    INDEX + Tail([table, index] + values) + if pk != [] then [COLON] + pk else [COLON]
  }

  /** Parts with a colon between each two. */
  function WithColons(parts: seq<Bytes>): Bytes {
    if parts == [] then [] else if |parts| == 1 then parts[0] else parts[0] + [58] + WithColons(parts[1..])
  }

  lemma {:induction false} ColonsAreTail(parts: seq<Bytes>)
    requires parts != []
    ensures [COLON] + WithColons(parts) == Tail(parts)
  {
    if |parts| > 1 {
      ColonsAreTail(parts[1..]);
      assert [COLON] + WithColons(parts) == [COLON] + parts[0] + ([58] + WithColons(parts[1..]));
    } else {
      assert Tail(parts[1..]) == [];
    }
  }

  /** `table:pk` and `index:table:index:value:...:pk`. */
  lemma KeysAreJoined(table: Bytes, index: Bytes, values: seq<Bytes>, pk: Bytes)
    ensures RowKey(table, pk) == WithColons([table, pk])
    ensures pk != [] ==> IndexKey(table, index, values, pk) == WithColons([[105, 110, 100, 101, 120], table, index] + values + [pk])
  {
    assert [table, pk][1..] == [pk];
    if pk != [] {
      var word: Bytes := [105, 110, 100, 101, 120];
      var parts: seq<Bytes> := [table, index] + values + [pk];
      KeyWithPk(table, index, values, pk);
      ColonsAreTail(parts);
      assert [word, table, index] + values + [pk] == [word] + parts;
      assert ([word] + parts)[1..] == parts;
      assert WithColons([word] + parts) == word + ([COLON] + WithColons(parts));
    }
  }

  /** The element after the last colon. */
  function LastPart(s: Bytes): Bytes {
    if s == [] || s[|s| - 1] == COLON then [] else LastPart(s[..|s| - 1]) + [s[|s| - 1]]
  }

  lemma {:induction false} LastPartSpec(front: Bytes, pk: Bytes)
    requires ColonFree(pk)
    ensures LastPart(front + [COLON] + pk) == pk
  {
    var s := front + [COLON] + pk;
    if pk == [] {
      assert s[|s| - 1] == COLON;
    } else {
      var n := |pk| - 1;
      assert s[|s| - 1] == pk[n] && s[..|s| - 1] == front + [COLON] + pk[..n];
      LastPartSpec(front, pk[..n]);
    }
  }

  lemma PrefixPointwise(s: Bytes, p: Bytes)
    ensures HasPrefix(s, p) <==> |p| <= |s| && forall i :: 0 <= i < |p| ==> s[i] == p[i]
  {
    if |p| <= |s| {
      assert forall i :: 0 <= i < |p| ==> s[..|p|][i] == s[i];
    }
  }

  /** Up to the first colon both sides must agree. */
  lemma ColonFirst(a: Bytes, x: Bytes, b: Bytes, y: Bytes)
    requires ColonFree(a) && ColonFree(b)
    ensures HasPrefix(a + [COLON] + x, b + [COLON] + y) <==> a == b && HasPrefix(x, y)
  {
    hide HasPrefix;
    var s, p := a + [COLON] + x, b + [COLON] + y;
    PrefixPointwise(s, p);
    PrefixPointwise(x, y);
    if HasPrefix(s, p) {
      assert s[|b|] == p[|b|] == COLON;
      if |a| <= |b| {
        assert s[|a|] == p[|a|];
      }
      assert |a| == |b|;
      assert forall i :: 0 <= i < |a| ==> a[i] == s[i] == p[i] == b[i];
      assert forall i :: 0 <= i < |y| ==> x[i] == s[|a| + 1 + i] == p[|b| + 1 + i] == y[i];
    }
    if a == b && HasPrefix(x, y) {
      assert forall i :: 0 <= i < |p| ==> s[i] == p[i];
    }
  }

  /** A part that is the last one has no colon after it. */
  lemma NoColonAfter(a: Bytes, b: Bytes, y: Bytes)
    requires ColonFree(a)
    ensures !HasPrefix(a, b + [COLON] + y)
  {
    hide HasPrefix;
    var p := b + [COLON] + y;
    PrefixPointwise(a, p);
    assert p[|b|] == COLON;
  }

  lemma TailCons(parts: seq<Bytes>)
    requires parts != []
    ensures Tail(parts) == [COLON] + (parts[0] + Tail(parts[1..]))
  {
  }

  lemma {:induction false} TailConcat(a: seq<Bytes>, b: seq<Bytes>)
    ensures Tail(a + b) == Tail(a) + Tail(b)
  {
    if a == [] {
      assert a + b == b;
    } else {
      assert (a + b)[1..] == a[1..] + b;
      TailConcat(a[1..], b);
    }
  }

  lemma PrefixPastColon(x: Bytes, y: Bytes)
    ensures HasPrefix([COLON] + x, [COLON] + y) <==> HasPrefix(x, y)
  {
    if HasPrefix(x, y) {
      assert ([COLON] + x)[..1 + |y|] == [COLON] + x[..|y|];
    }
    if HasPrefix([COLON] + x, [COLON] + y) {
      assert x[..|y|] == ([COLON] + x)[..1 + |y|][1..];
    }
  }

  /** A key starts with all given parts and a colon exactly when these are its first parts and
      it has more. */
  lemma {:induction false} PartsPrefix(parts: seq<Bytes>, given: seq<Bytes>)
    requires forall i :: 0 <= i < |parts| ==> ColonFree(parts[i])
    requires forall i :: 0 <= i < |given| ==> ColonFree(given[i])
    ensures HasPrefix(Tail(parts), Tail(given) + [COLON]) <==> |given| < |parts| && parts[..|given|] == given
  {
    hide HasPrefix;
    if parts == [] {
      ShortHasNoPrefix(Tail(given) + [COLON]);
    } else if given == [] {
      TailCons(parts);
      PrefixPastColon(parts[0] + Tail(parts[1..]), []);
      EmptyPrefix(parts[0] + Tail(parts[1..]));
      assert Tail(given) + [COLON] == [COLON] + [];
    } else {
      PartsPrefixStep(parts, given);
      PartsPrefix(parts[1..], given[1..]);
      assert |given| < |parts| ==> parts[..|given|] == [parts[0]] + parts[1..][..|given| - 1];
      assert given == [given[0]] + given[1..];
    }
  }

  lemma ShortHasNoPrefix(p: Bytes)
    requires p != []
    ensures !HasPrefix(Tail([]), p)
  {
  }

  lemma EmptyPrefix(x: Bytes)
    ensures HasPrefix(x, [])
  {
  }

  lemma PartsPrefixStep(parts: seq<Bytes>, given: seq<Bytes>)
    requires parts != [] && given != [] && ColonFree(parts[0]) && ColonFree(given[0])
    ensures HasPrefix(Tail(parts), Tail(given) + [COLON]) <==>
      parts[0] == given[0] && HasPrefix(Tail(parts[1..]), Tail(given[1..]) + [COLON])
  {
    hide HasPrefix;
    var more, want := Tail(parts[1..]), Tail(given[1..]) + [COLON];
    TailCons(parts);
    TailCons(given);
    assert Tail(given) + [COLON] == [COLON] + (given[0] + want);
    PrefixPastColon(parts[0] + more, given[0] + want);
    StartsWithColon(given[1..]);
    var y: Bytes :| want == [COLON] + y;
    assert given[0] + want == given[0] + [COLON] + y;
    if parts[1..] == [] {
      assert parts[0] + more == parts[0];
      NoColonAfter(parts[0], given[0], y);
      ShortHasNoPrefix(want);
    } else {
      TailCons(parts[1..]);
      var x := parts[1] + Tail(parts[2..]);
      assert parts[1..][1..] == parts[2..];
      assert parts[0] + more == parts[0] + [COLON] + x;
      ColonFirst(parts[0], x, given[0], y);
      PrefixPastColon(x, y);
    }
  }

  lemma StartsWithColon(given: seq<Bytes>)
    ensures exists y: Bytes :: Tail(given) + [COLON] == [COLON] + y
  {
    if given == [] {
      var y: Bytes := [];
      assert Tail(given) + [COLON] == [COLON] + y;
    } else {
      TailCons(given);
      var y := given[0] + Tail(given[1..]) + [COLON];
      assert Tail(given) + [COLON] == [COLON] + y;
    }
  }

  lemma KeyWithPk(table: Bytes, index: Bytes, values: seq<Bytes>, pk: Bytes)
    requires pk != []
    ensures IndexKey(table, index, values, pk) == INDEX + Tail([table, index] + values + [pk])
    ensures IndexKey(table, index, values, pk) == (INDEX + Tail([table, index] + values)) + [COLON] + pk
  {
    TailConcat([table, index] + values, [pk]);
    assert Tail([pk]) == [COLON] + pk + Tail([pk][1..]);
  }

  lemma PrefixUnder(front: Bytes, x: Bytes, y: Bytes)
    ensures HasPrefix(front + x, front + y) <==> HasPrefix(x, y)
  {
    if HasPrefix(x, y) {
      assert (front + x)[..|front + y|] == front + x[..|y|];
    }
    if HasPrefix(front + x, front + y) {
      assert x[..|y|] == (front + x)[..|front + y|][|front|..];
    }
  }

  /** What a query prefix matches: the entries of this index whose first values are the given
      ones, in order. */
  lemma QueryPrefixIff(table: Bytes, index: Bytes, values: seq<Bytes>, pk: Bytes, given: seq<Bytes>)
    requires ColonFree(table) && ColonFree(index) && pk != [] && ColonFree(pk)
    requires forall i :: 0 <= i < |values| ==> ColonFree(values[i])
    requires forall i :: 0 <= i < |given| ==> ColonFree(given[i])
    ensures HasPrefix(IndexKey(table, index, values, pk), IndexKey(table, index, given, [])) <==>
      |given| <= |values| && values[..|given|] == given
  {
    hide HasPrefix, Tail, ColonFree;
    var parts, wanted := [table, index] + values + [pk], [table, index] + given;
    KeyWithPk(table, index, values, pk);
    assert IndexKey(table, index, given, []) == INDEX + (Tail(wanted) + [COLON]);
    PrefixUnder(INDEX, Tail(parts), Tail(wanted) + [COLON]);
    PartsPrefix(parts, wanted);
    if |given| <= |values| {
      assert parts[..|wanted|] == [table, index] + values[..|given|];
      assert parts[..|wanted|][2..] == values[..|given|] && wanted[2..] == given;
    }
  }

  // ----- INSERT -----

  /** The values of the index columns in the order of the index; a repeated table column would
      contribute more than once. */
  function ValuesOf(columns: seq<Column>, name: Bytes, values: Row): seq<Bytes>
    requires |columns| == |values|
  {
    if columns == [] then []
    else
      var n := |columns| - 1;
      ValuesOf(columns[..n], name, values[..n]) + if columns[n].name == name then [values[n]] else []
  }

  function IndexValues(columns: seq<Column>, names: seq<Bytes>, values: Row): seq<Bytes>
    requires |columns| == |values|
  {
    if names == [] then []
    else IndexValues(columns, names[..|names| - 1], values) + ValuesOf(columns, names[|names| - 1], values)
  }

  function PkValue(def: TableDef, values: Row): Bytes {
    if def.schema.pkPosition < |values| then values[def.schema.pkPosition] else []
  }

  /** `updateSecondaryIndexes` over the first n indexes, each an error or one key. */
  function IndexWrites(def: TableDef, values: Row, n: nat): Option<Table>
    requires n <= |def.indexes| && |def.schema.columns| == |values|
  {
    if n == 0 then Some(map[])
    else match IndexWrites(def, values, n - 1)
      case None => None
      case Some(writes) =>
        var index := def.indexes[n - 1];
        var columnValues := IndexValues(def.schema.columns, index.columns, values);
        if |columnValues| != |index.columns| || index.columns == [] || PkValue(def, values) == [] then None
        else Some(writes[IndexKey(def.name, index.name, columnValues, PkValue(def, values)) := []])
  }

  /** The writes of one `insertIntoTable`; on any error the transaction is emptied before it
      commits, so nothing is written. */
  function InsertWrites(def: TableDef, values: Row): Option<Table> {
    if |values| != |def.schema.columns| then None
    else match SerialiseRow(def.schema.columns, values)
      case None => None
      case Some(row) =>
        match IndexWrites(def, values, |def.indexes|)
        case None => None
        case Some(entries) => Some(map[RowKey(def.name, PkValue(def, values)) := row] + entries)
  }

  function Insert(store: Table, def: TableDef, values: Row): Table {
    match InsertWrites(def, values)
    case None => store
    case Some(writes) => store + writes
  }

  // ----- what rows and index entries have to do with each other -----

  /** Distinct column names, indexes over known columns, and no colon in a name. */
  ghost predicate GoodDef(def: TableDef) {
    && ColonFree(def.name) && def.name != INDEX
    && KnownTypes(def.schema.columns)
    && (forall i, j :: 0 <= i < j < |def.schema.columns| ==> def.schema.columns[i].name != def.schema.columns[j].name)
    && def.schema.pkPosition < |def.schema.columns|
    && (forall i :: 0 <= i < |def.indexes| ==> GoodIndex(def, def.indexes[i]))
    && (forall i, j :: 0 <= i < j < |def.indexes| ==> def.indexes[i].name != def.indexes[j].name)
  }

  ghost predicate GoodIndex(def: TableDef, index: SecondaryIndex) {
    && ColonFree(index.name) && index.columns != []
    && KnownColumns(def.schema.columns, index.columns)
  }

  /** Values a row gets back as they were, with nothing in them an index key could mistake. */
  ghost predicate GoodRow(def: TableDef, values: Row) {
    && Serialisable(def.schema.columns, values)
    && (forall i :: 0 <= i < |values| ==> Canonical(def.schema.columns[i].dataType, values[i]) && ColonFree(values[i]))
    && PkValue(def, values) != []
  }

  type RowsByKey = map<Bytes, Row>

  function RowIndexKey(def: TableDef, index: SecondaryIndex, values: Row): Bytes
    requires |def.schema.columns| == |values|
  {
    IndexKey(def.name, index.name, IndexValues(def.schema.columns, index.columns, values), PkValue(def, values))
  }

  ghost predicate RowStored(store: Table, def: TableDef, pk: Bytes, values: Row) {
    && GoodRow(def, values) && PkValue(def, values) == pk
    && RowKey(def.name, pk) in store
    && SerialiseRow(def.schema.columns, values) == Some(store[RowKey(def.name, pk)])
    && forall i :: 0 <= i < |def.indexes| ==> RowIndexKey(def, def.indexes[i], values) in store
  }

  ghost predicate IsRowKey(def: TableDef, rows: RowsByKey, k: Bytes) {
    exists pk :: pk in rows && k == RowKey(def.name, pk)
  }

  ghost predicate IsIndexKey(def: TableDef, index: SecondaryIndex, rows: RowsByKey, k: Bytes) {
    exists pk :: pk in rows && |rows[pk]| == |def.schema.columns| && k == RowIndexKey(def, index, rows[pk])
  }

  /** Rows and index entries correspond one to one: every row is stored under its key and has
      its entry in every index, and nothing else lies under the table's or its indexes'
      prefixes. */
  ghost predicate InStep(store: Table, def: TableDef, rows: RowsByKey) {
    && (forall pk :: pk in rows ==> RowStored(store, def, pk, rows[pk]))
    && (forall k :: k in store && HasPrefix(k, def.name + [COLON]) ==> IsRowKey(def, rows, k))
    && (forall k, i :: 0 <= i < |def.indexes| && k in store && HasPrefix(k, IndexKey(def.name, def.indexes[i].name, [], [])) ==>
         IsIndexKey(def, def.indexes[i], rows, k))
  }

  // ----- every INSERT keeps it -----

  /** A row key carries no other table's prefix, nor any index's. */
  lemma RowKeyPrefix(table: Bytes, pk: Bytes, other: Bytes)
    requires ColonFree(table) && ColonFree(other)
    ensures HasPrefix(RowKey(table, pk), other + [COLON]) <==> table == other
  {
    hide HasPrefix;
    ColonFirst(table, pk, other, []);
    EmptyPrefix(pk);
    assert other + [COLON] + [] == other + [COLON];
  }

  lemma IndexIsColonFree()
    ensures ColonFree(INDEX)
  {
  }

  lemma RowKeyIsNoIndexKey(table: Bytes, pk: Bytes, owner: Bytes, index: Bytes)
    requires ColonFree(table) && table != INDEX
    ensures !HasPrefix(RowKey(table, pk), IndexKey(owner, index, [], []))
  {
    hide HasPrefix, ColonFree;
    IndexIsColonFree();
    var more := owner + Tail([index]) + [COLON];
    assert [owner, index] + [] == [owner, index] && [owner, index][1..] == [index];
    TailCons([owner, index]);
    assert IndexKey(owner, index, [], []) == INDEX + [COLON] + more;
    ColonFirst(table, pk, INDEX, more);
  }

  lemma IndexKeyIsNoRowKey(table: Bytes, index: Bytes, values: seq<Bytes>, pk: Bytes, other: Bytes)
    requires ColonFree(other) && other != INDEX && pk != []
    ensures !HasPrefix(IndexKey(table, index, values, pk), other + [COLON])
  {
    hide HasPrefix, ColonFree;
    IndexIsColonFree();
    var parts := [table, index] + values + [pk];
    KeyWithPk(table, index, values, pk);
    TailCons(parts);
    var more := parts[0] + Tail(parts[1..]);
    assert IndexKey(table, index, values, pk) == INDEX + [COLON] + more;
    ColonFirst(INDEX, more, other, []);
    assert other + [COLON] + [] == other + [COLON];
  }

  /** An index key carries the prefix of its own index only. */
  lemma IndexKeyPrefix(table: Bytes, index: Bytes, values: seq<Bytes>, pk: Bytes, otherTable: Bytes, otherIndex: Bytes)
    requires ColonFree(table) && ColonFree(index) && ColonFree(otherTable) && ColonFree(otherIndex)
    requires pk != [] && ColonFree(pk) && forall i :: 0 <= i < |values| ==> ColonFree(values[i])
    ensures HasPrefix(IndexKey(table, index, values, pk), IndexKey(otherTable, otherIndex, [], [])) <==>
      table == otherTable && index == otherIndex
  {
    hide HasPrefix, ColonFree, Tail;
    var parts, wanted := [table, index] + values + [pk], [otherTable, otherIndex];
    KeyWithPk(table, index, values, pk);
    assert wanted + [] == wanted;
    assert IndexKey(otherTable, otherIndex, [], []) == INDEX + (Tail(wanted) + [COLON]);
    PrefixUnder(INDEX, Tail(parts), Tail(wanted) + [COLON]);
    PartsPrefix(parts, wanted);
    assert parts[..2] == [table, index];
  }

  lemma {:induction false} ValuesOfNone(columns: seq<Column>, name: Bytes, values: Row)
    requires |columns| == |values| && forall i :: 0 <= i < |columns| ==> columns[i].name != name
    ensures ValuesOf(columns, name, values) == []
  {
    if columns != [] {
      ValuesOfNone(columns[..|columns| - 1], name, values[..|columns| - 1]);
    }
  }

  /** With distinct column names there is exactly one value for a known name. */
  lemma {:induction false} ValuesOfOne(columns: seq<Column>, name: Bytes, values: Row, p: nat)
    requires |columns| == |values| && p < |columns| && columns[p].name == name
    requires forall i, j :: 0 <= i < j < |columns| ==> columns[i].name != columns[j].name
    ensures ValuesOf(columns, name, values) == [values[p]]
  {
    var n := |columns| - 1;
    if p == n {
      ValuesOfNone(columns[..n], name, values[..n]);
    } else {
      ValuesOfOne(columns[..n], name, values[..n], p);
    }
  }

  /** Where a column's value lies in a row: the first column of that name. */
  function PositionOf(columns: seq<Column>, name: Bytes): (p: int)
    ensures -1 <= p < |columns|
    ensures p >= 0 ==> columns[p].name == name && forall i :: 0 <= i < p ==> columns[i].name != name
    ensures p == -1 ==> forall i :: 0 <= i < |columns| ==> columns[i].name != name
  {
    FindFrom(columns, name, 0)
  }

  function FindFrom(columns: seq<Column>, name: Bytes, i: nat): (p: int)
    requires i <= |columns|
    ensures -1 <= p < |columns|
    ensures p >= 0 ==> columns[p].name == name && forall j :: i <= j < p ==> columns[j].name != name
    ensures p == -1 ==> forall j :: i <= j < |columns| ==> columns[j].name != name
    decreases |columns| - i
  {
    if i == |columns| then -1 else if columns[i].name == name then i else FindFrom(columns, name, i + 1)
  }

  lemma KnownInit(columns: seq<Column>, names: seq<Bytes>, n: nat)
    requires KnownColumns(columns, names) && n < |names|
    ensures KnownColumns(columns, names[..n]) && PositionOf(columns, names[n]) >= 0
  {
    hide PositionOf;
    var init := names[..n];
    forall i | 0 <= i < |init|
      ensures exists j :: 0 <= j < |columns| && columns[j].name == init[i]
    {
      assert init[i] == names[i];
    }
    var j :| 0 <= j < |columns| && columns[j].name == names[n];
  }

  lemma {:induction false} IndexValuesAt(def: TableDef, names: seq<Bytes>, values: Row)
    requires GoodDef(def) && |def.schema.columns| == |values| && KnownColumns(def.schema.columns, names)
    ensures var columns := def.schema.columns;
      && |IndexValues(columns, names, values)| == |names|
      && (forall i :: 0 <= i < |names| ==> PositionOf(columns, names[i]) >= 0)
      && (forall i :: 0 <= i < |names| ==> IndexValues(columns, names, values)[i] == values[PositionOf(columns, names[i])])
  {
    hide ValuesOf, PositionOf, GoodIndex, ColonFree;
    if names != [] {
      var n, columns := |names| - 1, def.schema.columns;
      KnownInit(columns, names, n);
      IndexValuesAt(def, names[..n], values);
      assert names[n] == names[|names| - 1];
      var p := PositionOf(columns, names[n]);
      ValuesOfOne(columns, names[n], values, p);
    }
  }

  lemma {:induction false} EntriesIff(def: TableDef, values: Row, n: nat)
    requires GoodDef(def) && |def.schema.columns| == |values| && n <= |def.indexes|
    ensures IndexWrites(def, values, n).Some? <==> n == 0 || PkValue(def, values) != []
  {
    hide IndexKey, IndexValues, ColonFree, PkValue;
    if n > 0 {
      EntriesIff(def, values, n - 1);
      var index := def.indexes[n - 1];
      assert GoodIndex(def, index);
      IndexValuesAt(def, index.columns, values);
      assert |IndexValues(def.schema.columns, index.columns, values)| == |index.columns| && index.columns != [];
      assert IndexWrites(def, values, n).Some? <==> IndexWrites(def, values, n - 1).Some? && PkValue(def, values) != [];
    }
  }

  lemma {:induction false} SerialisedIff(columns: seq<Column>, values: Row)
    requires |columns| == |values|
    ensures SerialiseRow(columns, values).Some? <==>
      forall i :: 0 <= i < |columns| ==> Acceptable(columns[i].dataType, values[i])
  {
    hide EncodeValue, Acceptable;
    if columns != [] {
      var n := |columns| - 1;
      SerialisedIff(columns[..n], values[..n]);
      AcceptableIff(columns[n].dataType, values[n]);
      assert forall i :: 0 <= i < n ==> columns[..n][i] == columns[i] && values[..n][i] == values[i];
    }
  }

  /** An INSERT writes anything if and only if it gives every column a value of its type and,
      where the table has indexes, a primary key; otherwise the store is what it was. */
  lemma InsertAcceptedIff(store: Table, def: TableDef, values: Row)
    requires GoodDef(def)
    ensures InsertWrites(def, values).Some? <==> (|values| == |def.schema.columns|
      && (forall i :: 0 <= i < |values| ==> Acceptable(def.schema.columns[i].dataType, values[i]))
      && (def.indexes == [] || PkValue(def, values) != []))
    ensures InsertWrites(def, values).None? ==> Insert(store, def, values) == store
  {
    hide GoodDef, IndexWrites, SerialiseRow, Acceptable, PkValue;
    if |values| == |def.schema.columns| {
      SerialisedIff(def.schema.columns, values);
      EntriesIff(def, values, |def.indexes|);
    }
  }

  /** All keys an insert writes for its indexes, and nothing else. */
  lemma {:induction false} IndexWritesSpec(def: TableDef, values: Row, n: nat)
    requires GoodDef(def) && GoodRow(def, values) && n <= |def.indexes|
    ensures IndexWrites(def, values, n).Some?
    ensures forall k :: k in IndexWrites(def, values, n).value <==>
      exists i :: 0 <= i < n && k == RowIndexKey(def, def.indexes[i], values)
    ensures forall k :: k in IndexWrites(def, values, n).value ==> IndexWrites(def, values, n).value[k] == []
  {
    hide IndexKey, IndexValues, ColonFree, Canonical;
    if n > 0 {
      IndexWritesSpec(def, values, n - 1);
      assert GoodIndex(def, def.indexes[n - 1]);
      IndexValuesAt(def, def.indexes[n - 1].columns, values);
      var last := RowIndexKey(def, def.indexes[n - 1], values);
      forall k
        ensures k in IndexWrites(def, values, n).value <==>
          exists i :: 0 <= i < n && k == RowIndexKey(def, def.indexes[i], values)
      {
        if k == last {
          assert 0 <= n - 1 < n && k == RowIndexKey(def, def.indexes[n - 1], values);
        }
      }
    }
  }

  /** A row's index key is colon-separated as intended, and tells its index and its row. */
  lemma RowIndexKeyShape(def: TableDef, i: nat, values: Row)
    requires GoodDef(def) && GoodRow(def, values) && i < |def.indexes|
    ensures ColonFree(def.name) && ColonFree(def.indexes[i].name) && ColonFree(PkValue(def, values)) && PkValue(def, values) != []
    ensures |IndexValues(def.schema.columns, def.indexes[i].columns, values)| == |def.indexes[i].columns|
    ensures forall j :: 0 <= j < |def.indexes[i].columns| ==>
      (ColonFree(IndexValues(def.schema.columns, def.indexes[i].columns, values)[j]))
  {
    hide IndexValues, ColonFree, Canonical, PositionOf;
    assert GoodIndex(def, def.indexes[i]);
    IndexValuesAt(def, def.indexes[i].columns, values);
  }

  /** Writes that touch neither the table's rows nor its index entries. */
  ghost predicate Foreign(def: TableDef, writes: Table) {
    && (forall k :: k in writes ==> !HasPrefix(k, def.name + [COLON]))
    && (forall k, i :: 0 <= i < |def.indexes| && k in writes ==>
         !HasPrefix(k, IndexKey(def.name, def.indexes[i].name, [], [])))
  }

  lemma OwnKeys(def: TableDef, values: Row)
    requires GoodDef(def) && GoodRow(def, values)
    ensures HasPrefix(RowKey(def.name, PkValue(def, values)), def.name + [COLON])
    ensures forall i :: 0 <= i < |def.indexes| ==>
      HasPrefix(RowIndexKey(def, def.indexes[i], values), IndexKey(def.name, def.indexes[i].name, [], []))
  {
    hide HasPrefix, IndexKey, IndexValues, ColonFree, RowKey;
    RowKeyPrefix(def.name, PkValue(def, values), def.name);
    forall i | 0 <= i < |def.indexes|
      ensures HasPrefix(RowIndexKey(def, def.indexes[i], values), IndexKey(def.name, def.indexes[i].name, [], []))
    {
      RowIndexKeyShape(def, i, values);
      IndexKeyPrefix(def.name, def.indexes[i].name, IndexValues(def.schema.columns, def.indexes[i].columns, values),
                     PkValue(def, values), def.name, def.indexes[i].name);
    }
  }

  lemma ForeignKeeps(store: Table, def: TableDef, rows: RowsByKey, writes: Table)
    requires GoodDef(def) && InStep(store, def, rows) && Foreign(def, writes)
    ensures InStep(store + writes, def, rows)
  {
    hide HasPrefix, IndexKey, RowKey, RowIndexKey, GoodDef, GoodRow, SerialiseRow, IsRowKey, IsIndexKey;
    forall pk | pk in rows
      ensures RowStored(store + writes, def, pk, rows[pk])
    {
      OwnKeys(def, rows[pk]);
    }
  }

  /** Inserts into another table are foreign. */
  lemma OtherInsertIsForeign(def: TableDef, other: TableDef, values: Row)
    requires GoodDef(def) && GoodDef(other) && def.name != other.name && GoodRow(other, values)
    requires InsertWrites(other, values).Some?
    ensures Foreign(def, InsertWrites(other, values).value)
  {
    hide HasPrefix, IndexKey, RowKey, IndexValues, SerialiseRow, ColonFree, IndexWrites, Canonical;
    var writes, pk := InsertWrites(other, values).value, PkValue(other, values);
    IndexWritesSpec(other, values, |other.indexes|);
    forall k | k in writes
      ensures !HasPrefix(k, def.name + [COLON])
      ensures forall i :: 0 <= i < |def.indexes| ==> !HasPrefix(k, IndexKey(def.name, def.indexes[i].name, [], []))
    {
      if k == RowKey(other.name, pk) {
        RowKeyPrefix(other.name, pk, def.name);
        forall i | 0 <= i < |def.indexes|
          ensures !HasPrefix(k, IndexKey(def.name, def.indexes[i].name, [], []))
        {
          RowKeyIsNoIndexKey(other.name, pk, def.name, def.indexes[i].name);
        }
      } else {
        var j :| 0 <= j < |other.indexes| && k == RowIndexKey(other, other.indexes[j], values);
        ForeignIndexKey(def, other, values, j);
      }
    }
  }

  lemma ForeignIndexKey(def: TableDef, other: TableDef, values: Row, j: nat)
    requires GoodDef(def) && GoodDef(other) && def.name != other.name && GoodRow(other, values) && j < |other.indexes|
    ensures !HasPrefix(RowIndexKey(other, other.indexes[j], values), def.name + [COLON])
    ensures forall i :: 0 <= i < |def.indexes| ==>
      !HasPrefix(RowIndexKey(other, other.indexes[j], values), IndexKey(def.name, def.indexes[i].name, [], []))
  {
    hide HasPrefix, IndexKey, IndexValues, ColonFree;
    RowIndexKeyShape(other, j, values);
    var columnValues := IndexValues(other.schema.columns, other.indexes[j].columns, values);
    IndexKeyIsNoRowKey(other.name, other.indexes[j].name, columnValues, PkValue(other, values), def.name);
    forall i | 0 <= i < |def.indexes|
      ensures !HasPrefix(RowIndexKey(other, other.indexes[j], values), IndexKey(def.name, def.indexes[i].name, [], []))
    {
      assert GoodIndex(def, def.indexes[i]);
      IndexKeyPrefix(other.name, other.indexes[j].name, columnValues, PkValue(other, values), def.name, def.indexes[i].name);
    }
  }

  /** A row that may take the place of the one under its primary key: every index entry is the
      same. */
  ghost predicate Replaces(def: TableDef, rows: RowsByKey, values: Row)
    requires |def.schema.columns| == |values|
  {
    var pk := PkValue(def, values);
    pk in rows ==> (|rows[pk]| == |values| &&
      forall i :: 0 <= i < |def.indexes| ==> RowIndexKey(def, def.indexes[i], rows[pk]) == RowIndexKey(def, def.indexes[i], values))
  }

  /** The last part of an index entry's key is the primary key. */
  lemma EntryNamesPk(def: TableDef, i: nat, values: Row)
    requires GoodDef(def) && GoodRow(def, values) && i < |def.indexes|
    ensures LastPart(RowIndexKey(def, def.indexes[i], values)) == PkValue(def, values)
  {
    hide IndexKey, IndexValues, ColonFree, LastPart, PositionOf, Canonical;
    RowIndexKeyShape(def, i, values);
    var columnValues, pk := IndexValues(def.schema.columns, def.indexes[i].columns, values), PkValue(def, values);
    KeyWithPk(def.name, def.indexes[i].name, columnValues, pk);
    LastPartSpec(INDEX + Tail([def.name, def.indexes[i].name] + columnValues), pk);
  }

  /** An insert, with a fresh primary key or over a row with the same index entries, puts its row
      in place and keeps everything in step. */
  lemma InsertKeepsInStep(store: Table, def: TableDef, rows: RowsByKey, values: Row)
    requires GoodDef(def) && InStep(store, def, rows) && GoodRow(def, values)
    requires Replaces(def, rows, values)
    ensures InsertWrites(def, values).Some?
    ensures InStep(Insert(store, def, values), def, rows[PkValue(def, values) := values])
  {
    hide HasPrefix, IndexKey, RowKey, IndexValues, SerialiseRow, ColonFree, IndexWrites, Canonical, RowIndexKey, GoodDef;
    var pk := PkValue(def, values);
    KnownTypesOf(def);
    RowBack(def.schema.columns, values);
    IndexWritesSpec(def, values, |def.indexes|);
    var entries := IndexWrites(def, values, |def.indexes|).value;
    var after := Insert(store, def, values);
    var rows' := rows[pk := values];
    RowKeyApart(def, values);
    assert after == store + (map[RowKey(def.name, pk) := SerialiseRow(def.schema.columns, values).value] + entries);
    forall p | p in rows'
      ensures RowStored(after, def, p, rows'[p])
    {
      if p != pk {
        RowKeysDiffer(def, p, pk);
        OwnKeys(def, rows[p]);
        assert RowStored(store, def, p, rows[p]);
        RowKeyIsNoEntry(def, rows[p], values);
      }
    }
    InsertOnlyOwn(store, def, rows, values);
  }

  lemma KnownTypesOf(def: TableDef)
    requires GoodDef(def)
    ensures KnownTypes(def.schema.columns)
  {
  }

  lemma RowKeysDiffer(def: TableDef, a: Bytes, b: Bytes)
    requires a != b
    ensures RowKey(def.name, a) != RowKey(def.name, b)
  {
    assert RowKey(def.name, a)[|def.name| + 1..] == a && RowKey(def.name, b)[|def.name| + 1..] == b;
  }

  /** A row's key is none of an insert's index keys. */
  lemma RowKeyIsNoEntry(def: TableDef, row: Row, values: Row)
    requires GoodDef(def) && GoodRow(def, row) && GoodRow(def, values)
    ensures forall i :: 0 <= i < |def.indexes| ==>
      RowKey(def.name, PkValue(def, row)) != RowIndexKey(def, def.indexes[i], values)
  {
    hide HasPrefix, IndexKey, RowKey, IndexValues, ColonFree;
    OwnKeys(def, row);
    forall i | 0 <= i < |def.indexes|
      ensures RowKey(def.name, PkValue(def, row)) != RowIndexKey(def, def.indexes[i], values)
    {
      RowIndexKeyShape(def, i, values);
      IndexKeyIsNoRowKey(def.name, def.indexes[i].name, IndexValues(def.schema.columns, def.indexes[i].columns, values),
                         PkValue(def, values), def.name);
    }
  }

  lemma RowKeyApart(def: TableDef, values: Row)
    requires GoodDef(def) && GoodRow(def, values)
    ensures IndexWrites(def, values, |def.indexes|).Some?
    ensures RowKey(def.name, PkValue(def, values)) !in IndexWrites(def, values, |def.indexes|).value
  {
    hide IndexKey, RowKey, IndexValues, ColonFree, IndexWrites, RowIndexKey;
    IndexWritesSpec(def, values, |def.indexes|);
    RowKeyIsNoEntry(def, values, values);
  }

  /** An INSERT writes the row under its key, one empty value under its key in each index, and
      nothing else. */
  lemma WritesExactly(def: TableDef, values: Row)
    requires GoodDef(def) && GoodRow(def, values)
    ensures InsertWrites(def, values).Some?
    ensures forall k :: k in InsertWrites(def, values).value <==>
      (k == RowKey(def.name, PkValue(def, values))
        || exists i :: 0 <= i < |def.indexes| && k == RowIndexKey(def, def.indexes[i], values))
    ensures SerialiseRow(def.schema.columns, values) == Some(InsertWrites(def, values).value[RowKey(def.name, PkValue(def, values))])
    ensures forall k :: k in InsertWrites(def, values).value && k != RowKey(def.name, PkValue(def, values)) ==>
      InsertWrites(def, values).value[k] == []
  {
    hide GoodIndex, IndexWrites, SerialiseRow, RowKey, RowIndexKey, ColonFree, PkValue, HasPrefix, IndexKey, Canonical;
    KnownTypesOf(def);
    RowRoundTripIff(def.schema.columns, values);
    IndexWritesSpec(def, values, |def.indexes|);
    RowKeyApart(def, values);
  }

  /** Nothing but the new row and its entries appears under the table's prefixes. */
  lemma InsertOnlyOwn(store: Table, def: TableDef, rows: RowsByKey, values: Row)
    requires GoodDef(def) && InStep(store, def, rows) && GoodRow(def, values)
    requires Replaces(def, rows, values) && InsertWrites(def, values).Some?
    ensures var after, rows' := Insert(store, def, values), rows[PkValue(def, values) := values];
      && (forall k :: k in after && HasPrefix(k, def.name + [COLON]) ==> IsRowKey(def, rows', k))
      && (forall k, i :: 0 <= i < |def.indexes| && k in after && HasPrefix(k, IndexKey(def.name, def.indexes[i].name, [], [])) ==>
           IsIndexKey(def, def.indexes[i], rows', k))
  {
    hide HasPrefix, IndexKey, RowKey, IndexValues, SerialiseRow, ColonFree, IndexWrites, Canonical, RowIndexKey, RowStored;
    var pk := PkValue(def, values);
    var after, rows' := Insert(store, def, values), rows[pk := values];
    IndexWritesSpec(def, values, |def.indexes|);
    forall k | k in after && HasPrefix(k, def.name + [COLON])
      ensures IsRowKey(def, rows', k)
    {
      if k in store {
        assert IsRowKey(def, rows, k);
        var p :| p in rows && k == RowKey(def.name, p);
        assert p in rows';
      } else if k == RowKey(def.name, pk) {
        assert pk in rows';
      } else {
        var j :| 0 <= j < |def.indexes| && k == RowIndexKey(def, def.indexes[j], values);
        NotARowKey(def, values, j);
      }
    }
    forall k, i | 0 <= i < |def.indexes| && k in after && HasPrefix(k, IndexKey(def.name, def.indexes[i].name, [], []))
      ensures IsIndexKey(def, def.indexes[i], rows', k)
    {
      if k in store {
        assert IsIndexKey(def, def.indexes[i], rows, k);
        var p :| p in rows && |rows[p]| == |def.schema.columns| && k == RowIndexKey(def, def.indexes[i], rows[p]);
        assert p in rows' && k == RowIndexKey(def, def.indexes[i], rows'[p]);
      } else if k == RowKey(def.name, pk) {
        RowKeyIsNoIndexKey(def.name, pk, def.name, def.indexes[i].name);
      } else {
        var j :| 0 <= j < |def.indexes| && k == RowIndexKey(def, def.indexes[j], values);
        SameIndex(def, values, i, j);
        assert rows'[pk] == values;
      }
    }
  }

  /** Exactly then: over a row with another index entry, that entry is left behind. */
  lemma InsertInStepIff(store: Table, def: TableDef, rows: RowsByKey, values: Row)
    requires GoodDef(def) && InStep(store, def, rows) && GoodRow(def, values)
    ensures InStep(Insert(store, def, values), def, rows[PkValue(def, values) := values]) <==> Replaces(def, rows, values)
  {
    hide HasPrefix, IndexKey, RowKey, IndexValues, SerialiseRow, ColonFree, IndexWrites, Canonical, RowIndexKey, GoodDef, GoodRow,
      InsertWrites, LastPart, PkValue, IsRowKey;
    var pk := PkValue(def, values);
    RowLength(def, values);
    if Replaces(def, rows, values) {
      InsertKeepsInStep(store, def, rows, values);
    } else {
      assert RowStored(store, def, pk, rows[pk]);
      RowLength(def, rows[pk]);
      var i :| 0 <= i < |def.indexes| && RowIndexKey(def, def.indexes[i], rows[pk]) != RowIndexKey(def, def.indexes[i], values);
      var k := RowIndexKey(def, def.indexes[i], rows[pk]);
      assert k in Insert(store, def, values);
      OwnKeys(def, rows[pk]);
      EntryNamesPk(def, i, rows[pk]);
      EntryLeftBehind(store, def, rows, values, i);
    }
  }

  lemma RowLength(def: TableDef, values: Row)
    requires GoodRow(def, values)
    ensures |values| == |def.schema.columns|
  {
  }

  lemma EntryLeftBehind(store: Table, def: TableDef, rows: RowsByKey, values: Row, i: nat)
    requires GoodDef(def) && InStep(store, def, rows) && GoodRow(def, values) && i < |def.indexes|
    requires PkValue(def, values) in rows && |rows[PkValue(def, values)]| == |def.schema.columns| == |values|
    requires RowIndexKey(def, def.indexes[i], rows[PkValue(def, values)]) != RowIndexKey(def, def.indexes[i], values)
    ensures !IsIndexKey(def, def.indexes[i], rows[PkValue(def, values) := values],
                        RowIndexKey(def, def.indexes[i], rows[PkValue(def, values)]))
  {
    hide HasPrefix, IndexKey, RowKey, IndexValues, SerialiseRow, ColonFree, Canonical, RowIndexKey, GoodDef, GoodRow,
      LastPart, PkValue, IsRowKey;
    var pk := PkValue(def, values);
    assert RowStored(store, def, pk, rows[pk]);
    EntryNamesPk(def, i, rows[pk]);
    var rows' := rows[pk := values];
    forall p | p in rows' && |rows'[p]| == |def.schema.columns|
      ensures RowIndexKey(def, def.indexes[i], rows'[p]) != RowIndexKey(def, def.indexes[i], rows[pk])
    {
      if p != pk {
        assert RowStored(store, def, p, rows[p]);
        EntryNamesPk(def, i, rows[p]);
      }
    }
  }

  lemma NotARowKey(def: TableDef, values: Row, j: nat)
    requires GoodDef(def) && GoodRow(def, values) && j < |def.indexes|
    ensures !HasPrefix(RowIndexKey(def, def.indexes[j], values), def.name + [COLON])
  {
    hide HasPrefix, IndexKey, IndexValues, ColonFree;
    RowIndexKeyShape(def, j, values);
    IndexKeyIsNoRowKey(def.name, def.indexes[j].name, IndexValues(def.schema.columns, def.indexes[j].columns, values),
                       PkValue(def, values), def.name);
  }

  lemma SameIndex(def: TableDef, values: Row, i: nat, j: nat)
    requires GoodDef(def) && GoodRow(def, values) && i < |def.indexes| && j < |def.indexes|
    requires HasPrefix(RowIndexKey(def, def.indexes[j], values), IndexKey(def.name, def.indexes[i].name, [], []))
    ensures i == j
  {
    hide HasPrefix, IndexKey, IndexValues, ColonFree;
    RowIndexKeyShape(def, i, values);
    RowIndexKeyShape(def, j, values);
    IndexKeyPrefix(def.name, def.indexes[j].name, IndexValues(def.schema.columns, def.indexes[j].columns, values),
                   PkValue(def, values), def.name, def.indexes[i].name);
  }

  // ----- over every run of inserts -----

  datatype Inserted = Inserted(def: TableDef, values: Row)

  function InsertAll(store: Table, inserts: seq<Inserted>): Table {
    if inserts == [] then store
    else Insert(InsertAll(store, inserts[..|inserts| - 1]), inserts[|inserts| - 1].def, inserts[|inserts| - 1].values)
  }

  /** The rows of one table after a run of inserts. */
  function RowsAfter(def: TableDef, inserts: seq<Inserted>): RowsByKey {
    if inserts == [] then map[]
    else
      var last := inserts[|inserts| - 1];
      var rows := RowsAfter(def, inserts[..|inserts| - 1]);
      if last.def == def then rows[PkValue(def, last.values) := last.values] else rows
  }

  /** Every insert goes into the table itself, with a fresh primary key or over a row with the
      same index entries, or into another one. */
  ghost predicate Insertable(def: TableDef, inserts: seq<Inserted>) {
    inserts == [] ||
    (var last := inserts[|inserts| - 1];
     && Insertable(def, inserts[..|inserts| - 1])
     && GoodDef(last.def) && GoodRow(last.def, last.values)
     && (if last.def == def then Replaces(def, RowsAfter(def, inserts[..|inserts| - 1]), last.values)
         else last.def.name != def.name))
  }

  /** Rows and index entries correspond one to one over every run of inserts, starting from a
      store that holds only foreign keys, such as the catalogs. */
  lemma {:induction false} RunsKeepInStep(store: Table, def: TableDef, inserts: seq<Inserted>)
    requires GoodDef(def) && Foreign(def, store) && Insertable(def, inserts)
    ensures InStep(InsertAll(store, inserts), def, RowsAfter(def, inserts))
  {
    hide InStep, Foreign, Insert, InsertWrites, GoodDef, GoodRow, PkValue;
    if inserts == [] {
      NothingInserted(store, def);
    } else {
      var n := |inserts| - 1;
      RunsKeepInStep(store, def, inserts[..n]);
      var last := inserts[n];
      if last.def == def {
        InsertKeepsInStep(InsertAll(store, inserts[..n]), def, RowsAfter(def, inserts[..n]), last.values);
      } else {
        OtherInsertKeeps(InsertAll(store, inserts[..n]), def, RowsAfter(def, inserts[..n]), last.def, last.values);
      }
    }
  }

  lemma NothingInserted(store: Table, def: TableDef)
    requires Foreign(def, store)
    ensures InStep(store, def, map[])
  {
    hide HasPrefix, IndexKey;
  }

  lemma OtherInsertKeeps(store: Table, def: TableDef, rows: RowsByKey, other: TableDef, values: Row)
    requires GoodDef(def) && GoodDef(other) && def.name != other.name && GoodRow(other, values) && InStep(store, def, rows)
    ensures InStep(Insert(store, other, values), def, rows)
  {
    hide InStep, Foreign, InsertWrites, GoodDef, GoodRow;
    if InsertWrites(other, values).Some? {
      OtherInsertIsForeign(def, other, values);
      ForeignKeeps(store, def, rows, InsertWrites(other, values).value);
    }
  }
}
