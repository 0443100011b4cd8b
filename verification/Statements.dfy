/** Statements from their text to what they do: the parser's result handed to the tables
    (db/db.go, db/create.go, db/select.go). Go holds text as UTF-8; the encoding is a parameter. */
module Statements {
  import opened ByteStrings
  import opened Tables
  import opened TableReaders
  import opened Rows
  import opened Catalog
  import opened SecondaryIndexes
  import opened IndexQueries
  import opened QueryLoops
  import opened EngineQueries
  import opened CatalogStore
  import opened Engine
  import opened Database
  import opened Startup
  import opened Tokeniser
  import Parser
  import opened AcceptedStatements

  type Utf8 = string -> Bytes

  // ----- SELECT -----

  function OperatorOf(op: string): Operator {
    if op == "=" then Equals
    else if op == "<" then Below
    else if op == "<=" then AtMost
    else if op == ">" then Above
    else if op == ">=" then AtLeast
    else Unknown
  }

  function QueryOf(enc: Utf8, conditions: seq<Parser.QueryCondition>): (query: Query)
    ensures |query| == |conditions|
  {
    seq(|conditions|, i requires 0 <= i < |conditions| =>
      Condition(enc(conditions[i].column), OperatorOf(conditions[i].operator), enc(conditions[i].value)))
  }

  /** A SELECT from its text on; only the conditions of the statement are used, not its columns. */
  function SelectStatement(u: Runes, enc: Utf8, defs: Defs, via: Reads, text: string, order: seq<Bytes>): Outcome<seq<Row>> {
    match Parser.ParseSelectFromTable(u, Parser.Start(u, text))
    case None => Error
    case Some(s) =>
      if enc(s.name) !in defs then Error else SelectBy(defs[enc(s.name)], via, QueryOf(enc, s.conditions), order)
  }

  /** What the operators mean as they are written. */
  ghost predicate WrittenAs(v: Bytes, op: string, bound: Bytes) {
    || (op == "=" && v == bound)
    || (op == "<" && Precedes(v, bound))
    || (op == "<=" && (Precedes(v, bound) || v == bound))
    || (op == ">" && Precedes(bound, v))
    || (op == ">=" && (Precedes(bound, v) || v == bound))
  }

  lemma WrittenIff(v: Bytes, op: string, bound: Bytes)
    ensures Satisfies(v, OperatorOf(op), bound) <==> WrittenAs(v, op, bound)
  {
    hide Precedes, Less;
    LessIff(v, bound);
    LessIff(bound, v);
    LessTotal(v, bound);
    LessIrreflexive(v);
    if Less(v, bound) {
      LessAsymmetric(v, bound);
    }
  }

  ghost predicate RowMeets(enc: Utf8, columns: seq<Column>, row: Row, c: Parser.QueryCondition) {
    exists p :: (0 <= p < |columns| && p < |row| && columns[p].name == enc(c.column)
      && (forall i :: 0 <= i < p ==> columns[i].name != enc(c.column)) && WrittenAs(row[p], c.operator, enc(c.value)))
  }

  /** The rows a statement asks for. */
  ghost function RowsAsked(enc: Utf8, columns: seq<Column>, rows: RowsByKey, asked: seq<Parser.QueryCondition>): set<Row> {
    set pk | pk in rows && (forall i :: 0 <= i < |asked| ==> RowMeets(enc, columns, rows[pk], asked[i])) :: rows[pk]
  }

  lemma MeetsIff(enc: Utf8, columns: seq<Column>, row: Row, asked: seq<Parser.QueryCondition>, i: nat)
    requires i < |asked| && |row| == |columns|
    ensures Meets(columns, row, QueryOf(enc, asked)[i]) <==> RowMeets(enc, columns, row, asked[i])
  {
    hide Satisfies, WrittenAs;
    var c, p := asked[i], PositionOf(columns, enc(asked[i].column));
    if p >= 0 {
      WrittenIff(row[p], c.operator, enc(c.value));
    }
  }

  lemma AnswersAsked(enc: Utf8, def: TableDef, rows: RowsByKey, asked: seq<Parser.QueryCondition>)
    requires forall pk :: pk in rows ==> |rows[pk]| == |def.schema.columns|
    ensures Answers(def, rows, QueryOf(enc, asked)) == RowsAsked(enc, def.schema.columns, rows, asked)
  {
    hide Meets, RowMeets, QueryOf;
    var columns, query := def.schema.columns, QueryOf(enc, asked);
    forall pk | pk in rows
      ensures MeetsAll(columns, rows[pk], query) <==>
        forall i :: 0 <= i < |asked| ==> RowMeets(enc, columns, rows[pk], asked[i])
    {
      forall i | 0 <= i < |asked|
        ensures Meets(columns, rows[pk], query[i]) <==> RowMeets(enc, columns, rows[pk], asked[i])
      {
        MeetsIff(enc, columns, rows[pk], asked, i);
      }
    }
  }

  /** A table whose rows the reads show, and a plan and a walk of the maps to go with it. */
  ghost predicate TableShown(def: TableDef, via: Reads, store: Table, rows: RowsByKey, query: Query, order: seq<Bytes>) {
    && GoodDef(def) && def.schema.columns[def.schema.pkPosition].name != []
    && InStep(store, def, rows) && ReadsShow(def, via, store, KeysRead(def, query, order))
    && Answerable(def.schema.columns, query, []) && GoodPlan(def, rows, query, PlanOf(def, query))
    && WalkedBy(def, via, query, order)
  }

  /** SELECT from text to rows: a text that spells one lists exactly the rows of its table that
      meet every condition as it is written, each once. */
  lemma SelectStatementAnswers(u: Runes, enc: Utf8, defs: Defs, via: Reads, store: Table, text: string, order: seq<Bytes>,
                               name: string, wanted: seq<Parser.Wanted>, asked: seq<Parser.QueryCondition>, rows: RowsByKey)
    requires Proper(u) && SpellsSelect(u, text, name, wanted, asked) && 1 <= |wanted| <= 10 && |asked| <= 11
    requires enc(name) in defs && TableShown(defs[enc(name)], via, store, rows, QueryOf(enc, asked), order)
    ensures SelectStatement(u, enc, defs, via, text, order).Ok?
    ensures Walks(SelectStatement(u, enc, defs, via, text, order).value, RowsAsked(enc, defs[enc(name)].schema.columns, rows, asked))
  {
    hide GoodIndex, ColonFree, KnownTypes, InStep, ReadsShow, GoodPlan, WalkedBy, SelectBy, Select, RowsAsked, Answers, Answerable, SpellsSelect,
      Parser.ParseSelectFromTable, Parser.Start, Walks, Walked, QueryOf, PlanOf, KeysRead;
    var def, query := defs[enc(name)], QueryOf(enc, asked);
    var made := Parser.SelectFromTable(name, Parser.WantedColumns(wanted), asked);
    SelectAcceptsIff(u, text, made);
    SelectByAgrees(def, via, store, query, order);
    SelectAnswers(store, def, rows, query, order);
    RowsInStep(store, def, rows);
    AnswersAsked(enc, def, rows, asked);
  }

  lemma RowsInStep(store: Table, def: TableDef, rows: RowsByKey)
    requires InStep(store, def, rows)
    ensures forall pk :: pk in rows ==> |rows[pk]| == |def.schema.columns|
  {
    hide HasPrefix, IsRowKey, IsIndexKey, RowKey, RowIndexKey, SerialiseRow, Canonical;
    forall pk | pk in rows
      ensures |rows[pk]| == |def.schema.columns|
    {
      assert RowStored(store, def, pk, rows[pk]);
    }
  }

  // ----- INSERT INTO -----

  function Encoded(enc: Utf8, values: seq<string>): (row: Row)
    ensures |row| == |values|
  {
    seq(|values|, i requires 0 <= i < |values| => enc(values[i]))
  }

  /** A table nobody declared has no columns. */
  function DefOf(defs: Defs, name: Bytes): TableDef {
    if name in defs then defs[name] else TableDef(name, Schema(0, []), [])
  }

  /** What an INSERT commits, from its text on; nothing where it is an error or never ends. */
  function InsertStatement(u: Runes, enc: Utf8, defs: Defs, text: string): Option<Table> {
    match Parser.ParseInsertIntoTable(u, Parser.Start(u, text))
    case Done(i) => InsertWrites(DefOf(defs, enc(i.name)), Encoded(enc, i.values))
    case _ => None
  }

  /** One value of the right type for each column and, for a table with indexes, a primary key. */
  ghost predicate FitsTable(def: TableDef, values: Row) {
    && |values| == |def.schema.columns|
    && (forall i :: 0 <= i < |values| ==> Acceptable(def.schema.columns[i].dataType, values[i]))
    && (def.indexes == [] || PkValue(def, values) != [])
  }

  /** An INSERT writes anything if and only if its text spells one whose values fit its table. */
  lemma InsertStatementIff(u: Runes, enc: Utf8, defs: Defs, text: string)
    requires Proper(u) && forall name :: name in defs ==> GoodDef(defs[name])
    ensures InsertStatement(u, enc, defs, text).Some? <==> exists name, items ::
      (SpellsInsert(u, text, name, items) && FitsTable(DefOf(defs, enc(name)), Encoded(enc, Parser.ItemValues(items))))
  {
    hide GoodDef, SpellsInsert, InsertWrites, FitsTable, Parser.ParseInsertIntoTable, Parser.Start, Encoded, DefOf;
    var parsed := Parser.ParseInsertIntoTable(u, Parser.Start(u, text));
    if InsertStatement(u, enc, defs, text).Some? {
      InsertAcceptsIff(u, text, parsed.value);
      var name, items :| SpellsInsert(u, text, name, items) && parsed.value == Parser.InsertIntoTable(name, Parser.ItemValues(items));
      FitsIff(defs, enc(name), Encoded(enc, Parser.ItemValues(items)));
    }
    if name, items :| SpellsInsert(u, text, name, items) && FitsTable(DefOf(defs, enc(name)), Encoded(enc, Parser.ItemValues(items))) {
      InsertAcceptsIff(u, text, Parser.InsertIntoTable(name, Parser.ItemValues(items)));
      FitsIff(defs, enc(name), Encoded(enc, Parser.ItemValues(items)));
    }
  }

  lemma FitsIff(defs: Defs, name: Bytes, values: Row)
    requires name in defs ==> GoodDef(defs[name])
    ensures InsertWrites(DefOf(defs, name), values).Some? <==> FitsTable(DefOf(defs, name), values)
  {
    hide GoodDef, InsertWrites, Acceptable, PkValue;
    if name in defs {
      InsertAcceptedIff(map[], defs[name], values);
    } else {
      NoColumns(name, values);
    }
  }

  lemma NoColumns(name: Bytes, values: Row)
    ensures InsertWrites(TableDef(name, Schema(0, []), []), values).Some? <==> values == []
  {
  }

  /** An INSERT from its text on puts the row it spells in place and keeps table and indexes in
      step, so the SELECTs that follow list it. */
  lemma InsertStatementKeeps(u: Runes, enc: Utf8, defs: Defs, store: Table, rows: RowsByKey, text: string, name: string, items: seq<Parser.Item>)
    requires Proper(u) && SpellsInsert(u, text, name, items) && enc(name) in defs
    requires GoodDef(defs[enc(name)]) && InStep(store, defs[enc(name)], rows)
    requires GoodRow(defs[enc(name)], Encoded(enc, Parser.ItemValues(items)))
    requires Replaces(defs[enc(name)], rows, Encoded(enc, Parser.ItemValues(items)))
    ensures var def, row := defs[enc(name)], Encoded(enc, Parser.ItemValues(items));
      var writes := InsertStatement(u, enc, defs, text);
      writes.Some? && InStep(store + writes.value, def, rows[PkValue(def, row) := row])
  {
    hide GoodDef, InStep, GoodRow, Replaces, SpellsInsert, InsertWrites, Parser.ParseInsertIntoTable, Parser.Start, Encoded, PkValue;
    var def, row := defs[enc(name)], Encoded(enc, Parser.ItemValues(items));
    InsertAcceptsIff(u, text, Parser.InsertIntoTable(name, Parser.ItemValues(items)));
    InsertKeepsInStep(store, def, rows, row);
  }

  // ----- CREATE TABLE -----

  function ColumnOf(enc: Utf8, c: Parser.ColumnSpec): Column {
    Column(enc(c.name), c.dataType)
  }

  /** The parser declares no indexes. */
  function DefMade(enc: Utf8, made: Parser.CreateTable): TableDef {
    TableDef(enc(made.name), Schema(made.pkPosition, seq(|made.columns|, i requires 0 <= i < |made.columns| => ColumnOf(enc, made.columns[i]))), [])
  }

  /** A definition with just the columns some parts spell, in their order and of their types, and
      the primary key they name, or else the first column. */
  ghost predicate DefinedBy(enc: Utf8, def: TableDef, name: string, columns: seq<Parser.ColumnSpec>, pk: string) {
    && def.name == enc(name) && def.indexes == [] && |def.schema.columns| == |columns|
    && (forall i :: 0 <= i < |columns| ==>
         def.schema.columns[i].name == enc(columns[i].name) && def.schema.columns[i].dataType == columns[i].dataType)
    && def.schema.pkPosition < |columns|
    && (if pk == "" then def.schema.pkPosition == 0 else columns[def.schema.pkPosition].name == pk)
  }

  /** The text spells a CREATE TABLE of this definition. */
  ghost predicate Defines(u: Runes, enc: Utf8, text: string, def: TableDef) {
    exists name, parts :: (SpellsCreate(u, text, name, parts)
      && DefinedBy(enc, def, name, Parser.ColumnsOf(parts), Parser.KeyOf(parts, "")))
  }

  lemma MadeIsDefined(u: Runes, enc: Utf8, text: string, made: Parser.CreateTable)
    requires Proper(u) && Parser.ParseCreateTable(u, Parser.Start(u, text)) == Some(made)
    ensures Defines(u, enc, text, DefMade(enc, made))
  {
    hide SpellsCreate, Parser.ParseCreateTable, Parser.Start, Parser.ColumnsOf, Parser.KeyOf;
    CreateAcceptsIff(u, text, made);
    var name, parts :| SpellsCreate(u, text, name, parts)
      && Parser.Declares(Some(made), name, Parser.ColumnsOf(parts), Parser.KeyOf(parts, ""));
    assert DefinedBy(enc, DefMade(enc, made), name, Parser.ColumnsOf(parts), Parser.KeyOf(parts, ""));
  }

  /** CREATE TABLE from its text on, and a start: it loads the old tables and the one spelt. */
  lemma CreateStatementThenStart(u: Runes, enc: Utf8, text: string, made: Parser.CreateTable,
                                 c: Config, steps: seq<Step>, db: Db, h: History, defs: Defs, names: seq<Bytes>, more: seq<Bytes>)
    requires Proper(u) && Parser.ParseCreateTable(u, Parser.Start(u, text)) == Some(made)
    requires Runs(c, steps, db, h) && db.writer.Idle? && Catalogued(h.written, defs, names)
    requires Storeable(DefMade(enc, made)) && Walks(more, defs.Keys + {enc(made.name)})
    requires more != [] && CreateGranted(c, db, more, DefMade(enc, made))
    ensures Defines(u, enc, text, DefMade(enc, made))
    ensures NewDb(c, CreatedDb(c, db, more, DefMade(enc, made), 3), 0) == Ok(defs[enc(made.name) := DefMade(enc, made)])
  {
    hide Runs, Catalogued, Storeable, CreateGranted, NewDb, CreatedDb, Defines, Parser.ParseCreateTable, Parser.Start;
    MadeIsDefined(u, enc, text, made);
    CreateThenStart(c, steps, db, h, defs, names, more, DefMade(enc, made));
  }
}
