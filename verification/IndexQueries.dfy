/** SELECT over rows and secondary indexes: the choice of an index, the index path, and the full
    scan with a filter it has to agree with (db/select.go). */
module IndexQueries {
  import opened ByteStrings
  import opened Tables
  import opened TableReaders
  import opened Rows
  import opened Catalog
  import opened SecondaryIndexes

  datatype Operator = Equals | Below | AtMost | Above | AtLeast | Unknown

  datatype Condition = Condition(column: Bytes, op: Operator, value: Bytes)

  type Query = seq<Condition>

  // ----- reading rows -----

  /** An order in which a map or set may be walked. */
  ghost predicate Walks<T(!new)>(order: seq<T>, items: set<T>) {
    && (forall i, j :: 0 <= i < j < |order| ==> order[i] != order[j])
    && (forall x :: x in order <==> x in items)
  }

  lemma WalksAppend<T(!new)>(order: seq<T>, items: set<T>, x: T)
    requires Walks(order, items) && x !in items
    ensures Walks(order + [x], items + {x})
  {
    assert forall y :: y in order + [x] <==> y in order || y == x;
  }

  lemma {:induction false} SomeWalk<T(!new)>(items: set<T>) returns (order: seq<T>)
    ensures Walks(order, items)
    decreases |items|
  {
    if items == {} {
      order := [];
    } else {
      var x :| x in items;
      var rest := SomeWalk(items - {x});
      WalksAppend(rest, items - {x}, x);
      assert items == (items - {x}) + {x};
      order := rest + [x];
    }
  }

  function RowKeys(name: Bytes, pks: seq<Bytes>): (keys: seq<Bytes>)
    ensures |keys| == |pks|
    ensures forall i :: 0 <= i < |pks| ==> keys[i] == RowKey(name, pks[i])
  {
    seq(|pks|, i requires 0 <= i < |pks| => RowKey(name, pks[i]))
  }

  /** The rows under some keys; an absent key reads as an empty value. */
  function ReadRows(columns: seq<Column>, store: Table, keys: seq<Bytes>): Outcome<seq<Row>> {
    if keys == [] then Ok([])
    else
      var n := |keys| - 1;
      match ReadRows(columns, store, keys[..n])
      case Ok(rows) =>
        (match DeserialiseRow(columns, Lookup(store, keys[n]))
         case Ok(row) => Ok(rows + [row])
         case Error => Error
         case Panic => Panic)
      case other => other
  }

  // ----- conditions -----

  /** `isQueryConditionApplicable`. */
  function Holds(row: Row, p: nat, c: Condition): Outcome<bool> {
    if c.op.Unknown? then Error
    else if p >= |row| then Panic
    else Ok(match c.op
      case Equals => row[p] == c.value
      case Below => Less(row[p], c.value)
      case AtMost => LessEq(row[p], c.value)
      case Above => Less(c.value, row[p])
      case _ => LessEq(c.value, row[p]))
  }

  function FilterOne(rows: seq<Row>, p: nat, c: Condition): Outcome<seq<Row>> {
    if rows == [] then Ok([])
    else
      var n := |rows| - 1;
      match FilterOne(rows[..n], p, c)
      case Ok(kept) =>
        (match Holds(rows[n], p, c)
         case Ok(holds) => Ok(if holds then kept + [rows[n]] else kept)
         case Error => Error
         case Panic => Panic)
      case other => other
  }

  /** `filterQueryConditions`: conditions on covered columns are skipped. */
  function Filter(columns: seq<Column>, query: Query, covered: seq<Bytes>, rows: seq<Row>): Outcome<seq<Row>> {
    if query == [] then Ok(rows)
    else
      var n := |query| - 1;
      match Filter(columns, query[..n], covered, rows)
      case Ok(kept) =>
        var p := PositionOf(columns, query[n].column);
        if query[n].column in covered then Ok(kept)
        else if p == -1 then Error
        else FilterOne(kept, p, query[n])
      case other => other
  }

  // ----- which index -----

  predicate Asked(query: Query, name: Bytes) {
    exists i :: 0 <= i < |query| && query[i].column == name
  }

  /** The longest run of first index columns the query asks about. */
  function CoveredBy(query: Query, names: seq<Bytes>): (covered: seq<Bytes>)
    ensures covered <= names
    ensures forall i :: 0 <= i < |covered| ==> Asked(query, covered[i])
    ensures |covered| < |names| ==> !Asked(query, names[|covered|])
  {
    if names == [] || !Asked(query, names[0]) then [] else [names[0]] + CoveredBy(query, names[1..])
  }

  datatype Choice = Choice(index: SecondaryIndex, covered: seq<Bytes>) {
    predicate Whole() { |covered| == |index.columns| }
  }

  function ChoiceOf(query: Query, index: SecondaryIndex): Choice {
    Choice(index, CoveredBy(query, index.columns))
  }

  function ChooseFrom(query: Query, indexes: seq<SecondaryIndex>, best: Option<Choice>): Option<Choice> {
    if indexes == [] then best
    else
      var c := ChoiceOf(query, indexes[0]);
      if c.covered == [] then ChooseFrom(query, indexes[1..], best)
      else if c.Whole() then Some(c)
      else ChooseFrom(query, indexes[1..], Some(c))
  }

  /** `getSecondaryIndexForQueryIfApplicable`. */
  function Choose(query: Query, indexes: seq<SecondaryIndex>): Option<Choice> {
    ChooseFrom(query, indexes, None)
  }

  // ----- the paths -----

  function Values(query: Query): (values: seq<Bytes>)
    ensures |values| == |query|
    ensures forall i :: 0 <= i < |query| ==> values[i] == query[i].value
  {
    seq(|query|, i requires 0 <= i < |query| => query[i].value)
  }

  function PartsOf(keys: set<Bytes>): set<Bytes> {
    set k | k in keys :: LastPart(k)
  }

  /** `secondaryIndexPrefixScan`: the last parts of all keys under the prefix. */
  function PksUnder(store: Table, prefix: Bytes): set<Bytes> {
    PartsOf(Restrict(store, prefix).Keys)
  }

  function QueryPrefix(def: TableDef, query: Query, index: SecondaryIndex): Bytes {
    IndexKey(def.name, index.name, Values(query), [])
  }

  function IndexPath(def: TableDef, store: Table, query: Query, choice: Choice, pks: seq<Bytes>): Outcome<seq<Row>> {
    match ReadRows(def.schema.columns, store, RowKeys(def.name, pks))
    case Ok(rows) =>
      if choice.Whole() then Ok(rows) else Filter(def.schema.columns, query, choice.covered, rows)
    case other => other
  }

  function ScanPath(def: TableDef, store: Table, query: Query, keys: seq<Bytes>): Outcome<seq<Row>> {
    match ReadRows(def.schema.columns, store, keys)
    case Ok(rows) => Filter(def.schema.columns, query, [], rows)
    case other => other
  }

  datatype Plan = Point(pk: Bytes) | Scan | Indexed(choice: Choice)

  function PlanOf(def: TableDef, query: Query): Plan
    requires def.schema.pkPosition < |def.schema.columns|
  {
    if |query| == 1 && query[0].column == def.schema.columns[def.schema.pkPosition].name && query[0].op == Equals then
      Point(query[0].value)
    else match Choose(query, def.indexes)
      case None => Scan
      case Some(choice) => Indexed(choice)
  }

  /** The keys a plan walks, in whatever order the maps give them. */
  ghost predicate Walked(def: TableDef, store: Table, query: Query, plan: Plan, order: seq<Bytes>) {
    match plan
    case Point(_) => true
    case Scan => Walks(order, Restrict(store, def.name + [COLON]).Keys)
    case Indexed(choice) => Walks(order, PksUnder(store, QueryPrefix(def, query, choice.index)))
  }

  /** `selectFromTable` on a known table. */
  function Select(def: TableDef, store: Table, query: Query, order: seq<Bytes>): Outcome<seq<Row>> {
    if def.schema.pkPosition >= |def.schema.columns| || def.schema.columns[def.schema.pkPosition].name == [] then Error
    else match PlanOf(def, query)
      case Point(pk) => ReadRows(def.schema.columns, store, RowKeys(def.name, [pk]))
      case Scan => ScanPath(def, store, query, order)
      case Indexed(choice) => IndexPath(def, store, query, choice, order)
  }

  // ----- what a query asks for -----

  /** What each operator asks of a value. */
  ghost predicate Satisfies(v: Bytes, op: Operator, bound: Bytes) {
    match op
    case Equals => v == bound
    case Below => Precedes(v, bound)
    case AtMost => !Precedes(bound, v)
    case Above => Precedes(bound, v)
    case AtLeast => !Precedes(v, bound)
    case Unknown => false
  }

  ghost predicate Meets(columns: seq<Column>, row: Row, c: Condition) {
    var p := PositionOf(columns, c.column);
    0 <= p < |row| && Satisfies(row[p], c.op, c.value)
  }

  ghost predicate MeetsAll(columns: seq<Column>, row: Row, query: Query) {
    forall i :: 0 <= i < |query| ==> Meets(columns, row, query[i])
  }

  /** The conditions that are not skipped. */
  ghost predicate MeetsRest(columns: seq<Column>, row: Row, query: Query, covered: seq<Bytes>) {
    forall i :: 0 <= i < |query| ==> query[i].column in covered || Meets(columns, row, query[i])
  }

  ghost function Answers(def: TableDef, rows: RowsByKey, query: Query): set<Row> {
    set pk | pk in rows && MeetsAll(def.schema.columns, rows[pk], query) :: rows[pk]
  }

  /** Every operator is one of the five and every filtered column exists. */
  predicate Answerable(columns: seq<Column>, query: Query, covered: seq<Bytes>) {
    forall i :: 0 <= i < |query| && query[i].column !in covered ==>
      !query[i].op.Unknown? && PositionOf(columns, query[i].column) >= 0
  }

  // ----- rows come back -----

  function RowsOf(rows: RowsByKey, pks: seq<Bytes>): (r: seq<Row>)
    requires forall i :: 0 <= i < |pks| ==> pks[i] in rows
    ensures |r| == |pks|
    ensures forall i :: 0 <= i < |pks| ==> r[i] == rows[pks[i]]
  {
    seq(|pks|, i requires 0 <= i < |pks| => rows[pks[i]])
  }

  lemma StoredRowReads(store: Table, def: TableDef, rows: RowsByKey, pk: Bytes)
    requires GoodDef(def) && InStep(store, def, rows) && pk in rows
    ensures DeserialiseRow(def.schema.columns, Lookup(store, RowKey(def.name, pk))) == Ok(rows[pk])
    ensures PkValue(def, rows[pk]) == pk && |rows[pk]| == |def.schema.columns| && GoodRow(def, rows[pk])
  {
    hide SerialiseRow, DeserialiseRow, RowKey, RowIndexKey, HasPrefix, IndexKey, Canonical, ColonFree, PkValue;
    assert RowStored(store, def, pk, rows[pk]);
    KnownTypesOf(def);
    RowRoundTripIff(def.schema.columns, rows[pk]);
  }

  lemma {:induction false} RowsRead(store: Table, def: TableDef, rows: RowsByKey, pks: seq<Bytes>)
    requires GoodDef(def) && InStep(store, def, rows) && forall i :: 0 <= i < |pks| ==> pks[i] in rows
    ensures ReadRows(def.schema.columns, store, RowKeys(def.name, pks)) == Ok(RowsOf(rows, pks))
  {
    hide GoodDef, InStep, DeserialiseRow, RowKey, Lookup;
    if pks == [] {
      assert RowsOf(rows, pks) == [];
    } else {
      var n := |pks| - 1;
      RowsRead(store, def, rows, pks[..n]);
      StoredRowReads(store, def, rows, pks[n]);
      assert RowKeys(def.name, pks)[..n] == RowKeys(def.name, pks[..n]);
      assert RowsOf(rows, pks) == RowsOf(rows, pks[..n]) + [rows[pks[n]]];
    }
  }

  /** Rows of distinct keys are distinct: a row holds its primary key. */
  lemma RowsApart(store: Table, def: TableDef, rows: RowsByKey, pks: seq<Bytes>)
    requires GoodDef(def) && InStep(store, def, rows)
    requires forall i :: 0 <= i < |pks| ==> pks[i] in rows
    requires forall i, j :: 0 <= i < j < |pks| ==> pks[i] != pks[j]
    ensures Walks(RowsOf(rows, pks), set pk | pk in pks :: rows[pk])
  {
    hide GoodDef, InStep, PkValue;
    var r := RowsOf(rows, pks);
    forall i, j | 0 <= i < j < |r|
      ensures r[i] != r[j]
    {
      StoredRowReads(store, def, rows, pks[i]);
      StoredRowReads(store, def, rows, pks[j]);
    }
    forall x
      ensures x in r <==> x in (set pk | pk in pks :: rows[pk])
    {
      if x in r {
        var i :| 0 <= i < |r| && r[i] == x;
        assert pks[i] in pks;
      }
      if x in (set pk | pk in pks :: rows[pk]) {
        var pk :| pk in pks && x == rows[pk];
        var i :| 0 <= i < |pks| && pks[i] == pk;
        assert r[i] == x;
      }
    }
  }

  // ----- filters -----

  /** The comparison the code makes is the one the operator asks for; an unknown operator is an
      error. */
  lemma HoldsIff(row: Row, p: nat, c: Condition)
    ensures Holds(row, p, c).Error? <==> c.op.Unknown?
    ensures Holds(row, p, c).Panic? <==> !c.op.Unknown? && p >= |row|
    ensures Holds(row, p, c) == Ok(true) <==> p < |row| && Satisfies(row[p], c.op, c.value)
  {
    hide Less, Precedes;
    if p < |row| {
      LessIff(row[p], c.value);
      LessIff(c.value, row[p]);
      LessTotal(row[p], c.value);
      LessIrreflexive(c.value);
      if Less(row[p], c.value) {
        LessAsymmetric(row[p], c.value);
      }
      if Less(c.value, row[p]) {
        LessAsymmetric(c.value, row[p]);
      }
    }
  }

  ghost function Satisfying(rows: seq<Row>, p: nat, c: Condition): set<Row> {
    set r | r in rows && p < |r| && Satisfies(r[p], c.op, c.value)
  }

  lemma {:induction false} FilterOneSpec(rows: seq<Row>, p: nat, c: Condition)
    requires !c.op.Unknown? && forall i :: 0 <= i < |rows| ==> p < |rows[i]|
    requires forall i, j :: 0 <= i < j < |rows| ==> rows[i] != rows[j]
    ensures FilterOne(rows, p, c).Ok?
    ensures Walks(FilterOne(rows, p, c).value, Satisfying(rows, p, c))
  {
    hide Holds, Satisfies;
    if rows == [] {
      assert |FilterOne(rows, p, c).value| == 0;
      assert Satisfying(rows, p, c) == {};
    } else {
      var n := |rows| - 1;
      FilterOneSpec(rows[..n], p, c);
      HoldsIff(rows[n], p, c);
      assert rows == rows[..n] + [rows[n]] && rows[n] !in rows[..n];
      FilterOneStep(FilterOne(rows[..n], p, c).value, rows[..n], p, c, rows[n]);
    }
  }

  lemma FilterOneStep(kept: seq<Row>, rows: seq<Row>, p: nat, c: Condition, row: Row)
    requires Walks(kept, Satisfying(rows, p, c)) && row !in rows && p < |row|
    ensures Walks(if Satisfies(row[p], c.op, c.value) then kept + [row] else kept, Satisfying(rows + [row], p, c))
  {
    hide Satisfies, Walks;
    var before, after := Satisfying(rows, p, c), Satisfying(rows + [row], p, c);
    if Satisfies(row[p], c.op, c.value) {
      WalksAppend(kept, before, row);
      assert after == before + {row};
    } else {
      assert after == before;
    }
  }

  /** A filter succeeds on every table exactly when all it has to look at exists, and keeps
      the rows that meet the conditions not skipped, each once. */
  lemma {:induction false} FilterSpec(columns: seq<Column>, query: Query, covered: seq<Bytes>, rows: seq<Row>)
    requires Answerable(columns, query, covered)
    requires forall i :: 0 <= i < |rows| ==> |rows[i]| == |columns|
    requires forall i, j :: 0 <= i < j < |rows| ==> rows[i] != rows[j]
    ensures Filter(columns, query, covered, rows).Ok?
    ensures Walks(Filter(columns, query, covered, rows).value, set r | r in rows && MeetsRest(columns, r, query, covered))
  {
    hide PositionOf, Filter, MeetsRest;
    FilterKeeps(columns, query, covered, rows);
  }

  /** What stops a filter: a column that is not there, or an operator that is none of the five
      while some row has met the conditions before. */
  ghost predicate Stops(columns: seq<Column>, query: Query, covered: seq<Bytes>, rows: seq<Row>, i: nat) {
    && i < |query| && query[i].column !in covered
    && (PositionOf(columns, query[i].column) < 0
        || (query[i].op.Unknown? && exists r :: r in rows && MeetsRest(columns, r, query[..i], covered)))
  }

  /** What a filter keeps, whether or not all its operators are known. */
  lemma {:induction false} FilterKeeps(columns: seq<Column>, query: Query, covered: seq<Bytes>, rows: seq<Row>)
    requires forall i :: 0 <= i < |rows| ==> |rows[i]| == |columns|
    requires forall i, j :: 0 <= i < j < |rows| ==> rows[i] != rows[j]
    requires forall i: nat :: !Stops(columns, query, covered, rows, i)
    ensures Filter(columns, query, covered, rows).Ok?
    ensures Walks(Filter(columns, query, covered, rows).value, set r | r in rows && MeetsRest(columns, r, query, covered))
  {
    hide Holds, FilterOne, PositionOf, Satisfies;
    if query == [] {
      assert Filter(columns, query, covered, rows).value == rows;
    } else {
      var n := |query| - 1;
      StopsEarlier(columns, query, covered, rows);
      FilterKeeps(columns, query[..n], covered, rows);
      var before := Filter(columns, query[..n], covered, rows).value;
      RestStep(columns, query, covered);
      if query[n].column !in covered {
        assert !Stops(columns, query, covered, rows, n);
        assert before != [] ==> before[0] in before;
        KeepsLast(columns, query, covered, rows, before);
      }
    }
  }

  lemma RestStep(columns: seq<Column>, query: Query, covered: seq<Bytes>)
    requires query != []
    ensures var n := |query| - 1;
      forall r :: MeetsRest(columns, r, query, covered) <==>
        (MeetsRest(columns, r, query[..n], covered) && (query[n].column in covered || Meets(columns, r, query[n])))
  {
    hide Meets;
  }

  lemma StopsEarlier(columns: seq<Column>, query: Query, covered: seq<Bytes>, rows: seq<Row>)
    requires query != []
    ensures var n := |query| - 1;
      forall i: nat :: Stops(columns, query[..n], covered, rows, i) <==> i < n && Stops(columns, query, covered, rows, i)
  {
    hide PositionOf, MeetsRest;
    var n := |query| - 1;
    forall i: nat
      ensures Stops(columns, query[..n], covered, rows, i) <==> i < n && Stops(columns, query, covered, rows, i)
    {
      assert i < n ==> query[..n][..i] == query[..i];
    }
  }

  lemma KeepsLast(columns: seq<Column>, query: Query, covered: seq<Bytes>, rows: seq<Row>, before: seq<Row>)
    requires query != [] && forall i :: 0 <= i < |rows| ==> |rows[i]| == |columns|
    requires Walks(before, set r | r in rows && MeetsRest(columns, r, query[..|query| - 1], covered))
    requires PositionOf(columns, query[|query| - 1].column) >= 0
    requires query[|query| - 1].op.Unknown? ==> before == []
    ensures var c := query[|query| - 1];
      var kept := FilterOne(before, PositionOf(columns, c.column), c);
      kept.Ok? && Walks(kept.value,
        set r | r in rows && MeetsRest(columns, r, query[..|query| - 1], covered) && Meets(columns, r, c))
  {
    hide Holds, PositionOf, Satisfies, MeetsRest;
    var c := query[|query| - 1];
    if !c.op.Unknown? {
      forall i | 0 <= i < |before|
        ensures |before[i]| == |columns|
      {
        assert before[i] in before;
      }
      FilterOneSpec(before, PositionOf(columns, c.column), c);
    }
  }

  /** A filter fails if and only if something stops it, and then with an error. */
  lemma {:induction false} FilterOkIff(columns: seq<Column>, query: Query, covered: seq<Bytes>, rows: seq<Row>)
    requires forall i :: 0 <= i < |rows| ==> |rows[i]| == |columns|
    requires forall i, j :: 0 <= i < j < |rows| ==> rows[i] != rows[j]
    ensures Filter(columns, query, covered, rows).Ok? <==> forall i: nat :: !Stops(columns, query, covered, rows, i)
    ensures !Filter(columns, query, covered, rows).Ok? ==> Filter(columns, query, covered, rows).Error?
  {
    hide PositionOf, Holds, FilterOne, MeetsRest;
    if forall i: nat :: !Stops(columns, query, covered, rows, i) {
      FilterKeeps(columns, query, covered, rows);
    } else {
      var n := |query| - 1;
      StopsEarlier(columns, query, covered, rows);
      FilterOkIff(columns, query[..n], covered, rows);
      if Filter(columns, query[..n], covered, rows).Ok? {
        assert Stops(columns, query, covered, rows, n);
        FilterKeeps(columns, query[..n], covered, rows);
        var before := Filter(columns, query[..n], covered, rows).value;
        if PositionOf(columns, query[n].column) >= 0 {
          var r :| r in rows && MeetsRest(columns, r, query[..n], covered);
          assert r in before;
          UnknownStops(before, PositionOf(columns, query[n].column), query[n]);
        }
      }
    }
  }

  lemma {:induction false} UnknownStops(rows: seq<Row>, p: nat, c: Condition)
    requires c.op.Unknown? && rows != []
    ensures FilterOne(rows, p, c).Error?
  {
    if |rows| > 1 {
      UnknownStops(rows[..|rows| - 1], p, c);
    }
  }

  // ----- the full scan -----

  lemma RowKeyBack(name: Bytes, pk: Bytes)
    ensures RowKey(name, pk)[|name| + 1..] == pk
  {
  }

  /** The keys under a table's prefix are the row keys of its rows. */
  lemma ScannedKeys(store: Table, def: TableDef, rows: RowsByKey, keys: seq<Bytes>) returns (pks: seq<Bytes>)
    requires GoodDef(def) && InStep(store, def, rows)
    requires Walks(keys, Restrict(store, def.name + [COLON]).Keys)
    ensures Walks(pks, rows.Keys) && keys == RowKeys(def.name, pks)
  {
    hide HasPrefix, GoodRow, RowIndexKey, SerialiseRow, GoodDef, IsIndexKey, PkValue, RowKey, IndexKey;
    pks := seq(|keys|, i requires 0 <= i < |keys| => if |keys[i]| > |def.name| then keys[i][|def.name| + 1..] else []);
    forall i | 0 <= i < |keys|
      ensures pks[i] in rows && keys[i] == RowKey(def.name, pks[i])
    {
      assert keys[i] in keys;
      assert IsRowKey(def, rows, keys[i]);
      var pk :| pk in rows && keys[i] == RowKey(def.name, pk);
      KeyLonger(def.name, pk);
      RowKeyBack(def.name, pk);
    }
    forall pk | pk in rows
      ensures pk in pks
    {
      KeyUnderTable(def.name, pk);
      assert RowStored(store, def, pk, rows[pk]);
      var k := RowKey(def.name, pk);
      assert k in keys;
      var i :| 0 <= i < |keys| && keys[i] == k;
      KeyLonger(def.name, pk);
      RowKeyBack(def.name, pk);
      assert pks[i] == pk;
    }
  }

  lemma KeyUnderTable(name: Bytes, pk: Bytes)
    ensures HasPrefix(RowKey(name, pk), name + [COLON])
  {
  }

  lemma KeyLonger(name: Bytes, pk: Bytes)
    ensures |RowKey(name, pk)| > |name|
  {
  }

  /** Full scan plus filter lists the answers, each once, in every order of the maps. */
  lemma ScanAnswers(store: Table, def: TableDef, rows: RowsByKey, query: Query, keys: seq<Bytes>)
    requires GoodDef(def) && InStep(store, def, rows) && Answerable(def.schema.columns, query, [])
    requires Walks(keys, Restrict(store, def.name + [COLON]).Keys)
    ensures ScanPath(def, store, query, keys).Ok?
    ensures Walks(ScanPath(def, store, query, keys).value, Answers(def, rows, query))
  {
    hide GoodDef, InStep, ReadRows, Filter, Meets, RowKeys, Answerable;
    var pks := ScannedKeys(store, def, rows, keys);
    RowsRead(store, def, rows, pks);
    RowsApart(store, def, rows, pks);
    RowsAreLong(store, def, rows, pks);
    FilterSpec(def.schema.columns, query, [], RowsOf(rows, pks));
    assert (set r | r in RowsOf(rows, pks) && MeetsRest(def.schema.columns, r, query, [])) == Answers(def, rows, query);
  }

  lemma RowsAreLong(store: Table, def: TableDef, rows: RowsByKey, pks: seq<Bytes>)
    requires GoodDef(def) && InStep(store, def, rows) && forall i :: 0 <= i < |pks| ==> pks[i] in rows
    ensures forall i :: 0 <= i < |pks| ==> |RowsOf(rows, pks)[i]| == |def.schema.columns|
  {
    hide GoodDef, InStep;
    forall i | 0 <= i < |pks|
      ensures |RowsOf(rows, pks)[i]| == |def.schema.columns|
    {
      StoredRowReads(store, def, rows, pks[i]);
    }
  }

  // ----- the index path -----

  /** What the index prefix really asks: that the first index columns hold the given values in
      the order of the query, whatever columns and operators the query names. */
  predicate Positional(def: TableDef, index: SecondaryIndex, query: Query, row: Row) {
    && |row| == |def.schema.columns|
    && |query| <= |index.columns|
    && forall i :: 0 <= i < |query| ==>
      var p := PositionOf(def.schema.columns, index.columns[i]);
      p >= 0 && row[p] == query[i].value
  }

  predicate ColonFreeValues(query: Query) {
    forall i :: 0 <= i < |query| ==> ColonFree(query[i].value)
  }

  lemma OwnKeyMatches(def: TableDef, n: nat, query: Query, row: Row)
    requires GoodDef(def) && GoodRow(def, row) && n < |def.indexes| && ColonFreeValues(query)
    ensures HasPrefix(RowIndexKey(def, def.indexes[n], row), QueryPrefix(def, query, def.indexes[n]))
      <==> Positional(def, def.indexes[n], query, row)
    ensures LastPart(RowIndexKey(def, def.indexes[n], row)) == PkValue(def, row)
  {
    hide HasPrefix, IndexKey, IndexValues, ColonFree, LastPart, PositionOf, Canonical;
    RowIndexKeyShape(def, n, row);
    assert GoodIndex(def, def.indexes[n]);
    var columns, index, pk := def.schema.columns, def.indexes[n], PkValue(def, row);
    IndexValuesAt(def, index.columns, row);
    var values := IndexValues(columns, index.columns, row);
    QueryPrefixIff(def.name, index.name, values, pk, Values(query));
    KeyWithPk(def.name, index.name, values, pk);
    LastPartSpec(INDEX + Tail([def.name, index.name] + values), pk);
    if |query| <= |values| {
      assert forall i :: 0 <= i < |query| ==> values[..|query|][i] == values[i];
    }
  }

  /** A longer prefix lies under the prefix of its index. */
  lemma UnderIndex(def: TableDef, query: Query, index: SecondaryIndex, k: Bytes)
    requires HasPrefix(k, QueryPrefix(def, query, index))
    ensures HasPrefix(k, IndexKey(def.name, index.name, [], []))
  {
    hide Tail;
    var front, given := Tail([def.name, index.name]), Values(query);
    TailConcat([def.name, index.name], given);
    StartsWithColon(given);
    var y: Bytes :| Tail(given) + [COLON] == [COLON] + y;
    assert [def.name, index.name] + [] == [def.name, index.name];
    var short, long := IndexKey(def.name, index.name, [], []), QueryPrefix(def, query, index);
    assert long == INDEX + front + (Tail(given) + [COLON]);
    assert long == INDEX + front + [COLON] + y;
    assert short == INDEX + front + [COLON];
    assert k[..|short|] == k[..|long|][..|short|];
  }

  function PositionalPks(def: TableDef, index: SecondaryIndex, rows: RowsByKey, query: Query): set<Bytes> {
    set pk | pk in rows && Positional(def, index, query, rows[pk])
  }

  lemma PrefixFindsPositional(store: Table, def: TableDef, rows: RowsByKey, query: Query, n: nat)
    requires GoodDef(def) && InStep(store, def, rows) && n < |def.indexes| && ColonFreeValues(query)
    ensures PksUnder(store, QueryPrefix(def, query, def.indexes[n])) == PositionalPks(def, def.indexes[n], rows, query)
  {
    hide HasPrefix, IndexKey, RowIndexKey, LastPart, GoodDef, RowKey, Positional, ColonFreeValues, PkValue, GoodRow,
      QueryPrefix, SerialiseRow;
    var index := def.indexes[n];
    var prefix := QueryPrefix(def, query, index);
    forall pk | pk in PksUnder(store, prefix)
      ensures pk in PositionalPks(def, index, rows, query)
    {
      var k :| k in Restrict(store, prefix) && pk == LastPart(k);
      UnderIndex(def, query, index, k);
      assert IsIndexKey(def, index, rows, k);
      var p :| p in rows && |rows[p]| == |def.schema.columns| && k == RowIndexKey(def, index, rows[p]);
      assert RowStored(store, def, p, rows[p]);
      OwnKeyMatches(def, n, query, rows[p]);
    }
    forall pk | pk in PositionalPks(def, index, rows, query)
      ensures pk in PksUnder(store, prefix)
    {
      assert RowStored(store, def, pk, rows[pk]);
      StoredRowReads(store, def, rows, pk);
      OwnKeyMatches(def, n, query, rows[pk]);
      var k := RowIndexKey(def, index, rows[pk]);
      assert k in Restrict(store, prefix) && LastPart(k) == pk;
    }
  }

  /** The conditions the index path still checks after fetching. */
  ghost predicate PassesRest(def: TableDef, choice: Choice, query: Query, row: Row) {
    choice.Whole() || MeetsRest(def.schema.columns, row, query, choice.covered)
  }

  ghost function IndexAnswers(def: TableDef, choice: Choice, rows: RowsByKey, query: Query): set<Row> {
    set pk | pk in rows && Positional(def, choice.index, query, rows[pk]) && PassesRest(def, choice, query, rows[pk]) :: rows[pk]
  }

  /** What the index path returns for any query, in every order: the rows that hold the query's
      values in index order and meet the conditions on columns not covered. */
  lemma IndexPathAnswers(store: Table, def: TableDef, rows: RowsByKey, query: Query, choice: Choice, n: nat, pks: seq<Bytes>)
    requires GoodDef(def) && InStep(store, def, rows) && ColonFreeValues(query)
    requires n < |def.indexes| && choice == ChoiceOf(query, def.indexes[n])
    requires Answerable(def.schema.columns, query, choice.covered)
    requires Walks(pks, PksUnder(store, QueryPrefix(def, query, choice.index)))
    ensures IndexPath(def, store, query, choice, pks).Ok?
    ensures Walks(IndexPath(def, store, query, choice, pks).value, IndexAnswers(def, choice, rows, query))
  {
    hide GoodDef, InStep, ReadRows, Filter, RowKeys, Answerable, Positional, PksUnder, QueryPrefix, MeetsRest, CoveredBy;
    PrefixFindsPositional(store, def, rows, query, n);
    forall i | 0 <= i < |pks|
      ensures pks[i] in rows && Positional(def, choice.index, query, rows[pks[i]])
    {
      assert pks[i] in pks;
    }
    RowsRead(store, def, rows, pks);
    RowsApart(store, def, rows, pks);
    RowsAreLong(store, def, rows, pks);
    var found := RowsOf(rows, pks);
    if !choice.Whole() {
      FilterSpec(def.schema.columns, query, choice.covered, found);
      FoundRows(def, choice, rows, query, pks);
    } else {
      FoundRows(def, choice, rows, query, pks);
    }
  }

  lemma FoundRows(def: TableDef, choice: Choice, rows: RowsByKey, query: Query, pks: seq<Bytes>)
    requires Walks(pks, PositionalPks(def, choice.index, rows, query))
    requires forall i :: 0 <= i < |pks| ==> pks[i] in rows
    ensures choice.Whole() ==> (set pk | pk in pks :: rows[pk]) == IndexAnswers(def, choice, rows, query)
    ensures !choice.Whole() ==>
      (set r | r in RowsOf(rows, pks) && MeetsRest(def.schema.columns, r, query, choice.covered)) == IndexAnswers(def, choice, rows, query)
  {
    hide Positional, MeetsRest;
    forall r
      ensures r in RowsOf(rows, pks) <==> exists pk :: pk in pks && r == rows[pk]
    {
      if pk :| pk in pks && r == rows[pk] {
        var i :| 0 <= i < |pks| && pks[i] == pk;
        assert RowsOf(rows, pks)[i] == r;
      }
    }
  }

  // ----- which index gets chosen -----

  /** The choice falls on the n-th index: the first one wholly covered, or without such a one
      the last one with its first column asked about. */
  ghost predicate Picked(query: Query, indexes: seq<SecondaryIndex>, n: nat) {
    && n < |indexes| && ChoiceOf(query, indexes[n]).covered != []
    && (forall m :: 0 <= m < n ==> !Wholly(query, indexes[m]))
    && (Wholly(query, indexes[n]) || forall m :: n < m < |indexes| ==> ChoiceOf(query, indexes[m]).covered == [])
  }

  predicate Wholly(query: Query, index: SecondaryIndex) {
    var c := ChoiceOf(query, index);
    c.covered != [] && c.Whole()
  }

  lemma {:induction false} ChooseFromSpec(query: Query, indexes: seq<SecondaryIndex>, best: Option<Choice>)
    ensures (forall n :: 0 <= n < |indexes| ==> ChoiceOf(query, indexes[n]).covered == []) ==>
      ChooseFrom(query, indexes, best) == best
    ensures (exists n :: 0 <= n < |indexes| && ChoiceOf(query, indexes[n]).covered != []) ==>
      exists n: nat :: Picked(query, indexes, n) && ChooseFrom(query, indexes, best) == Some(ChoiceOf(query, indexes[n]))
  {
    hide ChoiceOf;
    if indexes != [] {
      var c, rest := ChoiceOf(query, indexes[0]), indexes[1..];
      assert forall n :: 0 <= n < |rest| ==> rest[n] == indexes[n + 1];
      assert forall n :: 1 <= n < |indexes| ==> indexes[n] == rest[n - 1];
      if c.covered != [] && c.Whole() {
        assert Picked(query, indexes, 0);
      } else {
        var next := if c.covered == [] then best else Some(c);
        ChooseFromSpec(query, rest, next);
        if exists n :: 0 <= n < |rest| && ChoiceOf(query, rest[n]).covered != [] {
          var n: nat :| Picked(query, rest, n) && ChooseFrom(query, rest, next) == Some(ChoiceOf(query, rest[n]));
          PickedLater(query, indexes, n);
        } else if c.covered != [] {
          assert Picked(query, indexes, 0);
        }
      }
    }
  }

  lemma PickedLater(query: Query, indexes: seq<SecondaryIndex>, n: nat)
    requires indexes != [] && !Wholly(query, indexes[0]) && Picked(query, indexes[1..], n)
    ensures Picked(query, indexes, n + 1)
  {
    hide ChoiceOf, Wholly;
    var rest := indexes[1..];
    assert forall m :: 1 <= m < |indexes| ==> indexes[m] == rest[m - 1];
  }

  lemma ChooseSpec(query: Query, indexes: seq<SecondaryIndex>)
    ensures Choose(query, indexes) == None <==>
      forall n :: 0 <= n < |indexes| ==> ChoiceOf(query, indexes[n]).covered == []
    ensures Choose(query, indexes).Some? ==>
      exists n: nat :: Picked(query, indexes, n) && Choose(query, indexes) == Some(ChoiceOf(query, indexes[n]))
  {
    hide ChoiceOf, ChooseFrom;
    ChooseFromSpec(query, indexes, None);
  }

  // ----- when the index path is right -----

  predicate Equalities(query: Query) {
    forall i :: 0 <= i < |query| ==> query[i].op == Equals
  }

  /** The query asks for this value in this column. */
  predicate Asks(query: Query, column: Bytes, value: Bytes) {
    exists j :: 0 <= j < |query| && query[j].column == column && query[j].value == value
  }

  /** The prefix asks for this value in this column. */
  predicate Matches(index: SecondaryIndex, query: Query, column: Bytes, value: Bytes) {
    exists i :: 0 <= i < |query| && i < |index.columns| && index.columns[i] == column && query[i].value == value
  }

  /** What the prefix matches is what the query asks: no more conditions than index columns,
      the i-th value given is one asked of the i-th index column, and no condition skipped
      afterwards is missing from the prefix. */
  predicate Aligned(choice: Choice, query: Query) {
    && |query| <= |choice.index.columns|
    && (forall i :: 0 <= i < |query| ==> Asks(query, choice.index.columns[i], query[i].value))
    && (forall j :: 0 <= j < |query| && (choice.Whole() || query[j].column in choice.covered) ==>
         Matches(choice.index, query, query[j].column, query[j].value))
  }

  /** Equality conditions written in the order of the index's first columns are aligned. */
  lemma PrefixOrderIsAligned(index: SecondaryIndex, query: Query)
    requires |query| <= |index.columns| && forall i :: 0 <= i < |query| ==> query[i].column == index.columns[i]
    ensures Aligned(ChoiceOf(query, index), query)
  {
    hide CoveredBy;
  }

  predicate KnownIn(columns: seq<Column>, query: Query) {
    forall i :: 0 <= i < |query| ==> PositionOf(columns, query[i].column) >= 0
  }

  lemma MeetsEqual(columns: seq<Column>, row: Row, c: Condition)
    requires c.op == Equals && |row| == |columns|
    ensures Meets(columns, row, c) <==> PositionOf(columns, c.column) >= 0 && row[PositionOf(columns, c.column)] == c.value
  {
  }

  lemma AlignedRow(def: TableDef, choice: Choice, query: Query, row: Row)
    requires Aligned(choice, query) && Equalities(query) && |row| == |def.schema.columns| && KnownIn(def.schema.columns, query)
    ensures Positional(def, choice.index, query, row) && PassesRest(def, choice, query, row)
      <==> MeetsAll(def.schema.columns, row, query)
  {
    hide PositionOf, Meets;
    var columns := def.schema.columns;
    forall i | 0 <= i < |query|
      ensures Meets(columns, row, query[i]) <==> row[PositionOf(columns, query[i].column)] == query[i].value
    {
      MeetsEqual(columns, row, query[i]);
    }
    if MeetsAll(columns, row, query) {
      forall i | 0 <= i < |query|
        ensures PositionOf(columns, choice.index.columns[i]) >= 0
        ensures row[PositionOf(columns, choice.index.columns[i])] == query[i].value
      {
        assert Asks(query, choice.index.columns[i], query[i].value);
        var j :| 0 <= j < |query| && query[j].column == choice.index.columns[i] && query[j].value == query[i].value;
        assert Meets(columns, row, query[j]);
      }
    }
    if Positional(def, choice.index, query, row) && PassesRest(def, choice, query, row) {
      forall j | 0 <= j < |query|
        ensures Meets(columns, row, query[j])
      {
        if choice.Whole() || query[j].column in choice.covered {
          assert Matches(choice.index, query, query[j].column, query[j].value);
        }
      }
    }
  }

  // ----- a row that tells the two apart -----

  function Differently(value: Bytes): Bytes {
    if value == [DIGIT_0] then [DIGIT_0 + 1] else [DIGIT_0]
  }

  lemma DifferentlyIsGood(t: DataType, value: Bytes)
    requires !t.Other?
    ensures var v := Differently(value);
      v != value && v != [] && EncodeValue(t, v).Some? && |v| < U32_LIMIT && Canonical(t, v) && ColonFree(v)
  {
    hide U32;
    AtoiDecimal(0);
    AtoiDecimal(1);
  }

  lemma ChangedIsGood(def: TableDef, row: Row, p: nat)
    requires GoodDef(def) && GoodRow(def, row) && p < |row|
    ensures GoodRow(def, row[p := Differently(row[p])])
  {
    hide EncodeValue, Canonical, ColonFree, Differently;
    KnownTypesOf(def);
    DifferentlyIsGood(def.schema.columns[p].dataType, row[p]);
  }

  /** Changing one column leaves every condition on another column as it was. */
  lemma ChangedElsewhere(columns: seq<Column>, row: Row, p: nat, name: Bytes)
    requires |row| == |columns| && p < |columns| && columns[p].name != name && PositionOf(columns, name) >= 0
    ensures row[p := Differently(row[p])][PositionOf(columns, name)] == row[PositionOf(columns, name)]
  {
  }

  /** Unless the query is aligned, some row is treated differently by the two paths. */
  lemma MisalignedRow(def: TableDef, choice: Choice, query: Query, w: Row) returns (row: Row)
    requires GoodDef(def) && Equalities(query) && GoodRow(def, w) && MeetsAll(def.schema.columns, w, query)
    requires !Aligned(choice, query)
    ensures GoodRow(def, row)
    ensures (Positional(def, choice.index, query, row) && PassesRest(def, choice, query, row))
      != MeetsAll(def.schema.columns, row, query)
  {
    hide GoodDef, GoodRow, MeetsAll, Positional, PassesRest, Equalities, Asks, Matches;
    row := w;
    if Positional(def, choice.index, query, w) {
      PositionalFits(def, choice.index, query, w);
      if i: nat :| i < |query| && !Asks(query, choice.index.columns[i], query[i].value) {
        row := Unasked(def, choice, query, w, i);
      } else {
        var j: nat :| j < |query| && (choice.Whole() || query[j].column in choice.covered) &&
          !Matches(choice.index, query, query[j].column, query[j].value);
        row := Unmatched(def, choice, query, w, j);
      }
    }
  }

  lemma PositionalFits(def: TableDef, index: SecondaryIndex, query: Query, row: Row)
    requires Positional(def, index, query, row)
    ensures |query| <= |index.columns|
  {
  }

  lemma Unasked(def: TableDef, choice: Choice, query: Query, w: Row, i: nat) returns (row: Row)
    requires GoodDef(def) && Equalities(query) && GoodRow(def, w) && MeetsAll(def.schema.columns, w, query)
    requires Positional(def, choice.index, query, w)
    requires i < |query| && !Asks(query, choice.index.columns[i], query[i].value)
    ensures GoodRow(def, row) && MeetsAll(def.schema.columns, row, query) && !Positional(def, choice.index, query, row)
  {
    hide GoodDef, Canonical, ColonFree, EncodeValue, PositionOf, Meets, PkValue;
    var columns, names := def.schema.columns, choice.index.columns;
    var p := PositionOf(columns, names[i]);
    row := w[p := Differently(w[p])];
    ChangedIsGood(def, w, p);
    forall j | 0 <= j < |query|
      ensures Meets(columns, row, query[j])
    {
      MeetsEqual(columns, w, query[j]);
      MeetsEqual(columns, row, query[j]);
      assert query[j].column != names[i];
      ChangedElsewhere(columns, w, p, query[j].column);
    }
  }

  lemma Unmatched(def: TableDef, choice: Choice, query: Query, w: Row, j: nat) returns (row: Row)
    requires GoodDef(def) && Equalities(query) && GoodRow(def, w) && MeetsAll(def.schema.columns, w, query)
    requires Positional(def, choice.index, query, w)
    requires j < |query| && (choice.Whole() || query[j].column in choice.covered)
    requires !Matches(choice.index, query, query[j].column, query[j].value)
    ensures GoodRow(def, row) && !MeetsAll(def.schema.columns, row, query)
    ensures Positional(def, choice.index, query, row) && PassesRest(def, choice, query, row)
  {
    hide GoodDef, Canonical, ColonFree, EncodeValue, PositionOf, Meets, PkValue;
    var columns, names := def.schema.columns, choice.index.columns;
    MeetsEqual(columns, w, query[j]);
    var p := PositionOf(columns, query[j].column);
    row := w[p := Differently(w[p])];
    ChangedIsGood(def, w, p);
    MeetsEqual(columns, row, query[j]);
    forall i | 0 <= i < |query|
      ensures row[PositionOf(columns, names[i])] == query[i].value
    {
      assert names[i] != query[j].column;
      ChangedElsewhere(columns, w, p, names[i]);
    }
    forall i | 0 <= i < |query| && query[i].column != query[j].column
      ensures Meets(columns, row, query[i])
    {
      MeetsEqual(columns, w, query[i]);
      MeetsEqual(columns, row, query[i]);
      ChangedElsewhere(columns, w, p, query[i].column);
    }
  }

  // ----- the exact condition -----

  /** On every table in step, in every order of the maps, the index path lists the answers. */
  ghost predicate RightEverywhere(def: TableDef, query: Query, choice: Choice) {
    forall store, rows, pks ::
      InStep(store, def, rows) && Walks(pks, PksUnder(store, QueryPrefix(def, query, choice.index))) ==>
        IndexPath(def, store, query, choice, pks).Ok? &&
        Walks(IndexPath(def, store, query, choice, pks).value, Answers(def, rows, query))
  }

  lemma LoneRow(def: TableDef, row: Row)
    requires GoodDef(def) && GoodRow(def, row)
    ensures InStep(Insert(map[], def, row), def, map[PkValue(def, row) := row])
  {
    hide GoodDef, GoodRow, InStep, Insert, HasPrefix, IndexKey, PkValue;
    NothingInserted(map[], def);
    var none: RowsByKey := map[];
    InsertKeepsInStep(map[], def, none, row);
    assert none[PkValue(def, row) := row] == map[PkValue(def, row) := row];
  }

  lemma SatisfiedIsUsable(def: TableDef, query: Query, covered: seq<Bytes>, w: Row)
    requires Equalities(query) && GoodRow(def, w) && MeetsAll(def.schema.columns, w, query)
    ensures KnownIn(def.schema.columns, query) && ColonFreeValues(query) && Answerable(def.schema.columns, query, covered)
  {
    hide PositionOf, ColonFree, Canonical, EncodeValue, Meets;
    forall i | 0 <= i < |query|
      ensures PositionOf(def.schema.columns, query[i].column) >= 0 && ColonFree(query[i].value)
    {
      assert Meets(def.schema.columns, w, query[i]);
      MeetsEqual(def.schema.columns, w, query[i]);
    }
  }

  lemma AlignedIsRight(store: Table, def: TableDef, rows: RowsByKey, query: Query, n: nat, pks: seq<Bytes>)
    requires GoodDef(def) && InStep(store, def, rows) && n < |def.indexes|
    requires Equalities(query) && KnownIn(def.schema.columns, query) && ColonFreeValues(query)
    requires Aligned(ChoiceOf(query, def.indexes[n]), query)
    requires Walks(pks, PksUnder(store, QueryPrefix(def, query, def.indexes[n])))
    ensures var path := IndexPath(def, store, query, ChoiceOf(query, def.indexes[n]), pks);
      path.Ok? && Walks(path.value, Answers(def, rows, query))
  {
    hide GoodDef, InStep, IndexPath, PksUnder, QueryPrefix, Aligned, CoveredBy, ColonFreeValues, PositionOf, Positional,
      PassesRest, MeetsAll, Walks;
    var choice := ChoiceOf(query, def.indexes[n]);
    IndexPathAnswers(store, def, rows, query, choice, n, pks);
    forall pk | pk in rows
      ensures Positional(def, choice.index, query, rows[pk]) && PassesRest(def, choice, query, rows[pk])
        <==> MeetsAll(def.schema.columns, rows[pk], query)
    {
      StoredRowReads(store, def, rows, pk);
      AlignedRow(def, choice, query, rows[pk]);
    }
    assert IndexAnswers(def, choice, rows, query) == Answers(def, rows, query);
  }

  /** For equality conditions that some row can meet, index path and full scan with filter agree
      on every table exactly when the query is aligned with the index. */
  lemma IndexPathIsRightIff(def: TableDef, query: Query, n: nat, w: Row)
    requires GoodDef(def) && n < |def.indexes| && Equalities(query)
    requires GoodRow(def, w) && MeetsAll(def.schema.columns, w, query)
    ensures RightEverywhere(def, query, ChoiceOf(query, def.indexes[n])) <==> Aligned(ChoiceOf(query, def.indexes[n]), query)
  {
    hide GoodDef, GoodRow, InStep, IndexPath, PksUnder, QueryPrefix, Aligned, CoveredBy, Walks, MeetsAll;
    var choice := ChoiceOf(query, def.indexes[n]);
    SatisfiedIsUsable(def, query, choice.covered, w);
    if Aligned(choice, query) {
      forall store, rows, pks | InStep(store, def, rows) && Walks(pks, PksUnder(store, QueryPrefix(def, query, choice.index)))
        ensures IndexPath(def, store, query, choice, pks).Ok? &&
          Walks(IndexPath(def, store, query, choice, pks).value, Answers(def, rows, query))
      {
        AlignedIsRight(store, def, rows, query, n, pks);
      }
    } else {
      MisalignedIsWrong(def, query, n, w);
    }
  }

  lemma MisalignedIsWrong(def: TableDef, query: Query, n: nat, w: Row)
    requires GoodDef(def) && n < |def.indexes| && Equalities(query)
    requires GoodRow(def, w) && MeetsAll(def.schema.columns, w, query)
    requires !Aligned(ChoiceOf(query, def.indexes[n]), query)
    ensures !RightEverywhere(def, query, ChoiceOf(query, def.indexes[n]))
  {
    hide GoodRow, InStep, IndexPath, PksUnder, QueryPrefix, Aligned, CoveredBy, MeetsAll, Positional, PassesRest, Insert,
      ColonFree, Answerable, ColonFreeValues, PkValue;
    var choice := ChoiceOf(query, def.indexes[n]);
    SatisfiedIsUsable(def, query, choice.covered, w);
    var row := MisalignedRow(def, choice, query, w);
    LoneRow(def, row);
    var store, pk := Insert(map[], def, row), PkValue(def, row);
    var rows: RowsByKey := map[pk := row];
    var pks := SomeWalk(PksUnder(store, QueryPrefix(def, query, choice.index)));
    IndexPathAnswers(store, def, rows, query, choice, n, pks);
    assert rows[pk] == row && pk in rows;
    assert row in IndexAnswers(def, choice, rows, query) <==>
      (Positional(def, choice.index, query, row) && PassesRest(def, choice, query, row));
    assert row in Answers(def, rows, query) <==> MeetsAll(def.schema.columns, row, query);
  }

  /** A strict comparison on the index column of its own position is never answered: no row the
      index path returns meets the query. */
  lemma StrictThroughIndex(def: TableDef, rows: RowsByKey, query: Query, choice: Choice, i: nat)
    requires i < |query| && i < |choice.index.columns| && query[i].column == choice.index.columns[i]
    requires query[i].op == Below || query[i].op == Above
    ensures IndexAnswers(def, choice, rows, query) !! Answers(def, rows, query)
  {
    hide PassesRest, Meets;
    forall r | r in IndexAnswers(def, choice, rows, query)
      ensures r !in Answers(def, rows, query)
    {
      StrictFails(def.schema.columns, r, query[i]);
    }
  }

  lemma StrictFails(columns: seq<Column>, row: Row, c: Condition)
    requires c.op == Below || c.op == Above
    requires |row| == |columns| && PositionOf(columns, c.column) >= 0 && row[PositionOf(columns, c.column)] == c.value
    ensures !Meets(columns, row, c)
  {
    hide Less, PositionOf;
    LessIrreflexive(c.value);
  }

  // ----- SELECT as a whole -----

  /** The plans that are right on every table in step. */
  ghost predicate GoodPlan(def: TableDef, rows: RowsByKey, query: Query, plan: Plan) {
    match plan
    case Point(pk) => pk in rows
    case Scan => true
    case Indexed(choice) => Equalities(query) && ColonFreeValues(query) && Aligned(choice, query)
  }

  lemma PkPosition(def: TableDef)
    requires GoodDef(def)
    ensures PositionOf(def.schema.columns, def.schema.columns[def.schema.pkPosition].name) == def.schema.pkPosition
  {
  }

  lemma PointAnswers(store: Table, def: TableDef, rows: RowsByKey, query: Query)
    requires GoodDef(def) && InStep(store, def, rows) && PlanOf(def, query).Point?
    ensures Answers(def, rows, query) == if query[0].value in rows then {rows[query[0].value]} else {}
  {
    hide InStep, Choose, PositionOf, GoodDef, GoodRow;
    PkPosition(def);
    forall pk | pk in rows
      ensures MeetsAll(def.schema.columns, rows[pk], query) <==> pk == query[0].value
    {
      StoredRowReads(store, def, rows, pk);
      MeetsEqual(def.schema.columns, rows[pk], query[0]);
    }
  }

  /** A point query on a primary key answers exactly when the key is there; otherwise decoding
      the empty value it reads goes out of range. */
  lemma PointQueryIff(store: Table, def: TableDef, rows: RowsByKey, pk: Bytes)
    requires GoodDef(def) && InStep(store, def, rows)
    ensures ReadRows(def.schema.columns, store, RowKeys(def.name, [pk])) == if pk in rows then Ok([rows[pk]]) else Panic
  {
    hide InStep, GoodDef, RowKey, RowKeys;
    var keys := RowKeys(def.name, [pk]);
    if pk in rows {
      RowsRead(store, def, rows, [pk]);
      assert RowsOf(rows, [pk]) == [rows[pk]];
    } else {
      AbsentRow(store, def, rows, pk);
      assert keys == [RowKey(def.name, pk)] && keys[..0] == [];
    }
  }

  lemma AbsentRow(store: Table, def: TableDef, rows: RowsByKey, pk: Bytes)
    requires GoodDef(def) && InStep(store, def, rows) && pk !in rows
    ensures DeserialiseRow(def.schema.columns, Lookup(store, RowKey(def.name, pk))) == Panic
  {
    hide RowKey, HasPrefix, RowStored, IsIndexKey, GoodIndex, ColonFree;
    KeyUnderTable(def.name, pk);
    var k := RowKey(def.name, pk);
    if k in store {
      assert IsRowKey(def, rows, k);
      var p :| p in rows && k == RowKey(def.name, p);
      RowKeyBack(def.name, pk);
      RowKeyBack(def.name, p);
    }
    assert !def.schema.columns[0].dataType.Other?;
  }

  /** SELECT under a good plan lists the rows that meet all conditions, each once, in whatever
      order the maps are walked. */
  lemma SelectAnswers(store: Table, def: TableDef, rows: RowsByKey, query: Query, order: seq<Bytes>)
    requires GoodDef(def) && def.schema.columns[def.schema.pkPosition].name != [] && InStep(store, def, rows)
    requires Answerable(def.schema.columns, query, [])
    requires GoodPlan(def, rows, query, PlanOf(def, query)) && Walked(def, store, query, PlanOf(def, query), order)
    ensures Select(def, store, query, order).Ok?
    ensures Walks(Select(def, store, query, order).value, Answers(def, rows, query))
  {
    hide InStep, IndexPath, ScanPath, ReadRows, PksUnder, QueryPrefix, Aligned, ChoiceOf, Choose, Answers, Filter, RowKeys,
      GoodIndex, ColonFree, PositionOf, ColonFreeValues;
    match PlanOf(def, query)
    case Point(pk) =>
      PointAnswers(store, def, rows, query);
      PointQueryIff(store, def, rows, pk);
    case Scan =>
      ScanAnswers(store, def, rows, query, order);
    case Indexed(choice) =>
      ChooseSpec(query, def.indexes);
      var n: nat :| Picked(query, def.indexes, n) && Choose(query, def.indexes) == Some(ChoiceOf(query, def.indexes[n]));
      ChoiceIndex(query, def.indexes[n]);
      AlignedIsRight(store, def, rows, query, n, order);
  }

  lemma ChoiceIndex(query: Query, index: SecondaryIndex)
    ensures ChoiceOf(query, index).index == index
  {
  }
}
