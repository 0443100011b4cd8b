/** The three statement parsers: what each makes of a text, when it ends, and that a statement
    spelt with any spacing is read as what it spells (sql_parser/parser.go). */
module Parser {
  import opened ByteStrings
  import opened Tokeniser
  import Rows

  type DataType = Rows.DataType

  datatype ColumnSpec = ColumnSpec(name: string, dataType: DataType)

  datatype CreateTable = CreateTable(name: string, columns: seq<ColumnSpec>, pkPosition: nat)

  datatype InsertIntoTable = InsertIntoTable(name: string, values: seq<string>)

  datatype QueryCondition = QueryCondition(column: string, operator: string, value: string)

  datatype SelectFromTable = SelectFromTable(name: string, columns: seq<string>, conditions: seq<QueryCondition>)

  // ----- the parser's state -----

  datatype State = State(current: Token, rest: string) {
    function Size(): nat { |current.value| + |rest| }
  }

  function Start(u: Runes, text: string): (st: State)
    ensures st.Size() <= |text|
  {
    NextSplits(u, text);
    var l := Next(u, text);
    State(l.token, l.rest)
  }

  /** A token to consume; an empty value stands for any. */
  predicate Fits(t: Token, expected: Token) {
    t.kind == expected.kind && (expected.value == "" || t.value == expected.value)
  }

  function Consume(u: Runes, st: State, expected: Token): (r: Option<State>)
    ensures r.Some? ==> r.value.Size() + |st.current.value| <= st.Size()
  {
    if Fits(st.current, expected) then Some(Start(u, st.rest)) else None
  }

  function ConsumeAll(u: Runes, st: State, expected: seq<Token>): (r: Option<State>)
    ensures r.Some? ==> r.value.Size() <= st.Size()
    ensures r.Some? && expected != [] && expected[0].value != "" ==> r.value.Size() < st.Size()
    decreases |expected|
  {
    if expected == [] then Some(st)
    else match Consume(u, st, expected[0])
      case None => None
      case Some(next) => ConsumeAll(u, next, expected[1..])
  }

  function Word(s: string): Token { Token(Keyword, s) }
  function Mark(s: string): Token { Token(Symbol, s) }
  function Name(s: string): Token { Token(Identifier, s) }

  const ANY_NAME: Token := Token(Identifier, "")

  function SkipComma(u: Runes, st: State): (r: State)
    ensures r.Size() <= st.Size()
  {
    if st.current.value != "," then st
    else match Consume(u, st, Mark(","))
      case Some(next) => next
      case None => st
  }

  // ----- CREATE TABLE -----

  function TypeOf(s: string): Option<DataType> {
    if s == "INT" then Some(Rows.Int) else if s == "STRING" then Some(Rows.Str) else if s == "BOOL" then Some(Rows.Bool) else None
  }

  datatype Key = Key(column: string, st: State)

  function ParseKey(u: Runes, st: State): (r: Option<Key>)
    ensures r.Some? ==> r.value.st.Size() < st.Size()
  {
    match ConsumeAll(u, st, [Word("PRIMARY"), Word("KEY"), Mark("(")])
    case None => None
    case Some(a) =>
      match ConsumeAll(u, a, [ANY_NAME, Mark(")")])
      case None => None
      case Some(b) => Some(Key(a.current.value, b))
  }

  datatype Columns = Columns(columns: seq<ColumnSpec>, pk: string, st: State)

  function ParseColumns(u: Runes, st: State, columns: seq<ColumnSpec>, pk: string): Option<Columns>
    decreases st.Size()
  {
    if st.current.value == ")" then Some(Columns(columns, pk, st))
    else
      var a := SkipComma(u, st);
      if a.current.value == "PRIMARY" then
        (match ParseKey(u, a)
         case None => None
         case Some(key) => ParseColumns(u, key.st, columns, key.column))
      else match Consume(u, a, ANY_NAME)
        case None => None
        case Some(b) =>
          match Consume(u, b, ANY_NAME)
          case None => None
          case Some(c) =>
            match TypeOf(b.current.value)
            case None => None
            case Some(t) => ParseColumns(u, c, columns + [ColumnSpec(a.current.value, t)], pk)
  }

  /** The position of the last column of a name, zero without one. */
  function LastNamed(columns: seq<ColumnSpec>, name: string): (p: nat)
    ensures p > 0 ==> p < |columns| && columns[p].name == name
    ensures forall i :: p < i < |columns| ==> columns[i].name != name
  {
    if columns == [] then 0
    else
      var n := |columns| - 1;
      if columns[n].name == name then n else LastNamed(columns[..n], name)
  }

  /** The checks after the column list. */
  function Checked(name: string, columns: seq<ColumnSpec>, pk: string): Option<CreateTable> {
    if columns == [] then None
    else if pk == "" then Some(CreateTable(name, columns, 0))
    else if LastNamed(columns, pk) == 0 then None
    else Some(CreateTable(name, columns, LastNamed(columns, pk)))
  }

  function ParseCreateTable(u: Runes, st: State): Option<CreateTable> {
    match ConsumeAll(u, st, [Word("CREATE"), Word("TABLE")])
    case None => None
    case Some(a) =>
      match ConsumeAll(u, a, [ANY_NAME, Mark("(")])
      case None => None
      case Some(b) =>
        match ParseColumns(u, b, [], "")
        case None => None
        case Some(c) => if Consume(u, c.st, Mark(")")).None? then None else Checked(a.current.value, c.columns, c.pk)
  }

  // ----- INSERT INTO -----

  /** What becomes of a run: a result, an error, or a loop that never ends. */
  datatype Parsed<+T> = Done(value: T) | SyntaxError | Forever

  datatype Values = Values(values: seq<string>, st: State)

  /** A name of no characters is where the tokeniser is stuck: the loop meets it again and again. */
  function ParseValues(u: Runes, st: State, values: seq<string>): Parsed<Values>
    decreases st.Size()
  {
    if st.current.value == ")" then Done(Values(values, st))
    else
      var a := SkipComma(u, st);
      match Consume(u, a, ANY_NAME)
      case None => SyntaxError
      case Some(b) => if a.current.value == "" then Forever else ParseValues(u, b, values + [a.current.value])
  }

  function ParseInsertIntoTable(u: Runes, st: State): Parsed<InsertIntoTable> {
    match ConsumeAll(u, st, [Word("INSERT"), Word("INTO")])
    case None => SyntaxError
    case Some(a) =>
      match ConsumeAll(u, a, [ANY_NAME, Word("VALUES"), Mark("(")])
      case None => SyntaxError
      case Some(b) =>
        match ParseValues(u, b, [])
        case SyntaxError => SyntaxError
        case Forever => Forever
        case Done(v) =>
          if Consume(u, v.st, Mark(")")).None? then SyntaxError else Done(InsertIntoTable(a.current.value, v.values))
  }

  // ----- SELECT -----

  const COLUMNS_LIMIT: nat := 10
  const CONDITIONS_LIMIT: nat := 11

  datatype Selected = Selected(columns: seq<string>, st: State)

  function ParseSelected(u: Runes, st: State, columns: seq<string>): Option<Selected>
    requires |columns| <= COLUMNS_LIMIT
    decreases COLUMNS_LIMIT - |columns|
  {
    if st.current.value == "FROM" then Some(Selected(columns, st))
    else
      match (if st.current.value == "," then Consume(u, st, Mark(",")) else Some(st))
      case None => None
      case Some(a) =>
        if |columns| == COLUMNS_LIMIT then None
        else match Consume(u, a, if a.current.value == "*" then Mark("*") else ANY_NAME)
          case None => None
          case Some(b) => ParseSelected(u, b, columns + [a.current.value])
  }

  datatype Conditions = Conditions(conditions: seq<QueryCondition>, st: State)

  function ParseCondition(u: Runes, st: State): Option<Conditions> {
    match Consume(u, st, ANY_NAME)
    case None => None
    case Some(a) =>
      match Consume(u, a, Token(Comparison, ""))
      case None => None
      case Some(b) =>
        match Consume(u, b, ANY_NAME)
        case None => None
        case Some(c) => Some(Conditions([QueryCondition(st.current.value, a.current.value, b.current.value)], c))
  }

  function ParseConditions(u: Runes, st: State, conditions: seq<QueryCondition>): Option<Conditions>
    requires |conditions| <= CONDITIONS_LIMIT
    decreases CONDITIONS_LIMIT - |conditions|
  {
    if st.current.value == ";" then Some(Conditions(conditions, st))
    else match (if conditions != [] then Consume(u, st, Word("AND")) else Some(st))
      case None => None
      case Some(a) =>
        if |conditions| == CONDITIONS_LIMIT then None
        else match ParseCondition(u, a)
          case None => None
          case Some(c) => ParseConditions(u, c.st, conditions + c.conditions)
  }

  function ParseWhere(u: Runes, st: State): Option<Conditions> {
    if st.current.value != "WHERE" then Some(Conditions([], st))
    else match Consume(u, st, Word("WHERE"))
      case None => None
      case Some(a) =>
        match ParseConditions(u, a, [])
        case None => None
        case Some(c) => if c.conditions == [] then None else Some(c)
  }

  /** The part from FROM on. */
  function ParseFrom(u: Runes, st: State, columns: seq<string>): Option<SelectFromTable> {
    match Consume(u, st, Word("FROM"))
    case None => None
    case Some(a) =>
      match Consume(u, a, ANY_NAME)
      case None => None
      case Some(b) =>
        match ParseWhere(u, b)
        case None => None
        case Some(w) =>
          if Consume(u, w.st, Mark(";")).None? then None
          else Some(SelectFromTable(a.current.value, columns, w.conditions))
  }

  function ParseSelectFromTable(u: Runes, st: State): Option<SelectFromTable> {
    match Consume(u, st, Word("SELECT"))
    case None => None
    case Some(a) =>
      match ParseSelected(u, a, [])
      case None => None
      case Some(s) => if s.columns == [] then None else ParseFrom(u, s.st, s.columns)
  }

  // ----- states that read tokens -----

  ghost predicate StateReads(u: Runes, st: State, tokens: seq<Token>) {
    tokens == [] || (st.current == tokens[0] && Reads(u, st.rest, tokens[1..]))
  }

  lemma StartReads(u: Runes, text: string, tokens: seq<Token>)
    requires Reads(u, text, tokens)
    ensures StateReads(u, Start(u, text), tokens)
  {
  }

  lemma ConsumeReads(u: Runes, st: State, t: Token, more: seq<Token>, expected: Token)
    requires StateReads(u, st, [t] + more) && Fits(t, expected)
    ensures st.current == t && Consume(u, st, expected) == Some(Start(u, st.rest))
    ensures StateReads(u, Start(u, st.rest), more)
  {
    assert ([t] + more)[1..] == more;
    StartReads(u, st.rest, more);
  }

  lemma {:induction false} ConsumeAllReads(u: Runes, st: State, tokens: seq<Token>, more: seq<Token>, expected: seq<Token>)
    requires StateReads(u, st, tokens + more) && |expected| == |tokens|
    requires forall i :: 0 <= i < |tokens| ==> Fits(tokens[i], expected[i])
    ensures tokens != [] ==> st.current == tokens[0]
    ensures ConsumeAll(u, st, expected).Some? && StateReads(u, ConsumeAll(u, st, expected).value, more)
    decreases |tokens|
  {
    hide Consume, StateReads;
    if tokens == [] {
      assert tokens + more == more;
    } else {
      assert tokens + more == [tokens[0]] + (tokens[1..] + more);
      ConsumeReads(u, st, tokens[0], tokens[1..] + more, expected[0]);
      ConsumeAllReads(u, Start(u, st.rest), tokens[1..], more, expected[1..]);
    }
  }

  /** A name that can be written and is no keyword. */
  predicate Nameable(u: Runes, s: string) {
    Spellable(u, Name(s))
  }

  lemma CapitalsStay(u: Runes, s: string)
    requires Proper(u) && forall i :: 0 <= i < |s| ==> 'A' <= s[i] <= 'Z'
    ensures Upper(u, s) == s
  {
    assert forall i :: 0 <= i < |s| ==> u.upper(s[i]) == s[i];
  }

  lemma NameIsNone(u: Runes, s: string)
    requires Proper(u) && Nameable(u, s)
    ensures s != "" && s != "PRIMARY" && s != ")" && s != "," && s != "*" && s != "FROM" && s != ";" && s != "WHERE"
  {
    hide Upper;
    assert u.word(s[0]);
    CapitalsStay(u, "PRIMARY");
    CapitalsStay(u, "FROM");
    CapitalsStay(u, "WHERE");
  }

  // ----- CREATE TABLE reads what it spells -----

  /** One part of a column list, with or without a comma before it. */
  datatype Part = ColumnPart(comma: bool, name: string, dataType: DataType) | KeyPart(comma: bool, name: string)

  function TypeWord(t: DataType): string {
    match t
    case Int => "INT"
    case Str => "STRING"
    case Bool => "BOOL"
    case Other(_) => ""
  }

  function Commas(comma: bool): seq<Token> {
    if comma then [Mark(",")] else []
  }

  function PartTokens(part: Part): seq<Token> {
    match part
    case ColumnPart(_, name, dataType) => [Name(name), Name(TypeWord(dataType))]
    case KeyPart(_, name) => [Word("PRIMARY"), Word("KEY"), Mark("("), Name(name), Mark(")")]
  }

  function PartsTokens(parts: seq<Part>): seq<Token> {
    if parts == [] then [] else Commas(parts[0].comma) + (PartTokens(parts[0]) + PartsTokens(parts[1..]))
  }

  function CreateTokens(name: string, parts: seq<Part>): seq<Token> {
    CreateHead(name) + (PartsTokens(parts) + [Mark(")")])
  }

  predicate GoodPart(u: Runes, part: Part) {
    Nameable(u, part.name) && (part.ColumnPart? ==> !part.dataType.Other?)
  }

  function ColumnsOf(parts: seq<Part>): seq<ColumnSpec> {
    if parts == [] then []
    else (if parts[0].ColumnPart? then [ColumnSpec(parts[0].name, parts[0].dataType)] else []) + ColumnsOf(parts[1..])
  }

  /** The column of the last PRIMARY KEY clause. */
  function KeyOf(parts: seq<Part>, pk: string): string {
    if parts == [] then pk else KeyOf(parts[1..], if parts[0].KeyPart? then parts[0].name else pk)
  }

  lemma CommaReads(u: Runes, st: State, comma: bool, t: Token, more: seq<Token>)
    requires StateReads(u, st, Commas(comma) + ([t] + more)) && t.value != ","
    ensures StateReads(u, SkipComma(u, st), [t] + more)
    ensures st.current.value == (if comma then "," else t.value)
  {
    if comma {
      ConsumeReads(u, st, Mark(","), [t] + more, Mark(","));
    } else {
      assert Commas(comma) + ([t] + more) == [t] + more;
      assert ([t] + more)[0] == t;
    }
  }

  lemma KeyReads(u: Runes, st: State, name: string, more: seq<Token>)
    requires StateReads(u, st, [Word("PRIMARY"), Word("KEY"), Mark("("), Name(name), Mark(")")] + more)
    ensures st.current.value == "PRIMARY" && ParseKey(u, st).Some?
    ensures ParseKey(u, st).value.column == name && StateReads(u, ParseKey(u, st).value.st, more)
  {
    hide StateReads, ConsumeAll;
    var head, inner := [Word("PRIMARY"), Word("KEY"), Mark("(")], [Name(name), Mark(")")];
    assert head + inner + more == head + (inner + more);
    assert head + inner == [Word("PRIMARY"), Word("KEY"), Mark("("), Name(name), Mark(")")];
    ConsumeAllReads(u, st, head, inner + more, head);
    var a := ConsumeAll(u, st, head).value;
    ConsumeAllReads(u, a, inner, more, [ANY_NAME, Mark(")")]);
  }

  lemma ColumnReads(u: Runes, st: State, name: string, typeName: string, more: seq<Token>) returns (b: State, c: State)
    requires StateReads(u, st, [Name(name), Name(typeName)] + more)
    ensures st.current.value == name && Consume(u, st, ANY_NAME) == Some(b)
    ensures b.current.value == typeName && Consume(u, b, ANY_NAME) == Some(c)
    ensures StateReads(u, c, more)
  {
    hide StateReads, Consume;
    assert [Name(name), Name(typeName)] + more == [Name(name)] + ([Name(typeName)] + more);
    ConsumeReads(u, st, Name(name), [Name(typeName)] + more, ANY_NAME);
    b := Start(u, st.rest);
    ConsumeReads(u, b, Name(typeName), more, ANY_NAME);
    c := Start(u, b.rest);
  }

  lemma ColumnStep(u: Runes, st: State, part: Part, more: seq<Token>, columns: seq<ColumnSpec>, pk: string) returns (after: State)
    requires Proper(u) && GoodPart(u, part) && part.ColumnPart?
    requires StateReads(u, st, Commas(part.comma) + (PartTokens(part) + more))
    ensures StateReads(u, after, more)
    ensures ParseColumns(u, st, columns, pk) ==
      ParseColumns(u, after, columns + [ColumnSpec(part.name, part.dataType)], pk)
  {
    hide StateReads, Consume, SkipComma, ParseKey, Nameable, Commas, Proper;
    NameIsNone(u, part.name);
    var typeName := TypeWord(part.dataType);
    assert PartTokens(part) + more == [Name(part.name)] + ([Name(typeName)] + more);
    CommaReads(u, st, part.comma, Name(part.name), [Name(typeName)] + more);
    var b;
    b, after := ColumnReads(u, SkipComma(u, st), part.name, typeName, more);
  }

  lemma KeyStep(u: Runes, st: State, part: Part, more: seq<Token>, columns: seq<ColumnSpec>, pk: string) returns (after: State)
    requires part.KeyPart? && StateReads(u, st, Commas(part.comma) + (PartTokens(part) + more))
    ensures StateReads(u, after, more)
    ensures ParseColumns(u, st, columns, pk) == ParseColumns(u, after, columns, part.name)
  {
    hide StateReads, Consume, SkipComma, ParseKey, Commas;
    var own := PartTokens(part);
    var first := Word("PRIMARY");
    assert own + more == [first] + (own[1..] + more);
    CommaReads(u, st, part.comma, first, own[1..] + more);
    assert st.current.value != ")";
    KeyReads(u, SkipComma(u, st), part.name, more);
    after := ParseKey(u, SkipComma(u, st)).value.st;
  }

  lemma PartsTokensCons(parts: seq<Part>, tail: seq<Token>)
    requires parts != []
    ensures PartsTokens(parts) + tail == Commas(parts[0].comma) + (PartTokens(parts[0]) + (PartsTokens(parts[1..]) + tail))
  {
    hide Commas, PartTokens;
  }

  lemma ColumnsOfCons(parts: seq<Part>, columns: seq<ColumnSpec>)
    requires parts != []
    ensures columns + ColumnsOf(parts) == (if parts[0].ColumnPart? then
      columns + [ColumnSpec(parts[0].name, parts[0].dataType)] else columns) + ColumnsOf(parts[1..])
  {
    if parts[0].ColumnPart? {
      var c := ColumnSpec(parts[0].name, parts[0].dataType);
      assert columns + ([c] + ColumnsOf(parts[1..])) == columns + [c] + ColumnsOf(parts[1..]);
    } else {
      assert [] + ColumnsOf(parts[1..]) == ColumnsOf(parts[1..]);
    }
  }

  lemma NoParts(columns: seq<ColumnSpec>, more: seq<Token>)
    ensures PartsTokens([]) + more == more && columns + ColumnsOf([]) == columns
  {
  }

  /** A column list up to some point: every column read so far is kept, in order. */
  lemma {:induction false} ColumnsRead(u: Runes, st: State, parts: seq<Part>, columns: seq<ColumnSpec>, pk: string, more: seq<Token>) returns (after: State)
    requires Proper(u) && (forall i :: 0 <= i < |parts| ==> GoodPart(u, parts[i]))
    requires StateReads(u, st, PartsTokens(parts) + more)
    ensures StateReads(u, after, more)
    ensures ParseColumns(u, st, columns, pk) == ParseColumns(u, after, columns + ColumnsOf(parts), KeyOf(parts, pk))
    decreases |parts|
  {
    hide StateReads, ParseColumns, PartsTokens, ColumnsOf, Nameable, Commas, PartTokens, Proper;
    if parts == [] {
      NoParts(columns, more);
      after := st;
    } else {
      var part, rest := parts[0], PartsTokens(parts[1..]) + more;
      PartsTokensCons(parts, more);
      ColumnsOfCons(parts, columns);
      if part.KeyPart? {
        after := KeyStep(u, st, part, rest, columns, pk);
        after := ColumnsRead(u, after, parts[1..], columns, part.name, more);
      } else {
        after := ColumnStep(u, st, part, rest, columns, pk);
        after := ColumnsRead(u, after, parts[1..], columns + [ColumnSpec(part.name, part.dataType)], pk, more);
      }
    }
  }

  function CreateHead(name: string): seq<Token> {
    [Word("CREATE"), Word("TABLE")] + [Name(name), Mark("(")]
  }

  lemma CreateHeadReads(u: Runes, st: State, name: string, more: seq<Token>) returns (a: State, b: State)
    requires StateReads(u, st, CreateHead(name) + more)
    ensures ConsumeAll(u, st, [Word("CREATE"), Word("TABLE")]) == Some(a) && a.current.value == name
    ensures ConsumeAll(u, a, [ANY_NAME, Mark("(")]) == Some(b) && StateReads(u, b, more)
  {
    hide StateReads, ConsumeAll;
    var head, inner := [Word("CREATE"), Word("TABLE")], [Name(name), Mark("(")];
    assert CreateHead(name) + more == head + (inner + more);
    ConsumeAllReads(u, st, head, inner + more, head);
    a := ConsumeAll(u, st, head).value;
    ConsumeAllReads(u, a, inner, more, [ANY_NAME, Mark("(")]);
    b := ConsumeAll(u, a, [ANY_NAME, Mark("(")]).value;
  }

  /** What a column list and its last PRIMARY KEY clause declare: all columns in order, and the
      last column of the clause's name as primary key, the first column where there is no clause.
      Nothing is declared without a column, or where the clause names none past the first. */
  ghost predicate Declares(made: Option<CreateTable>, name: string, columns: seq<ColumnSpec>, pk: string) {
    match made
    case None => columns == [] || (pk != "" && forall i :: 0 < i < |columns| ==> columns[i].name != pk)
    case Some(t) =>
      && t.name == name && t.columns == columns && t.pkPosition < |columns|
      && (if pk == "" then t.pkPosition == 0 else
           (t.pkPosition > 0 && columns[t.pkPosition].name == pk
             && forall i :: t.pkPosition < i < |columns| ==> columns[i].name != pk))
  }

  /** CREATE TABLE with any commas and any mix of columns and PRIMARY KEY clauses reads as its
      columns in order, each of the type it is spelt with, and its last clause. */
  lemma CreateReads(u: Runes, text: string, name: string, parts: seq<Part>)
    requires Proper(u) && Nameable(u, name) && forall i :: 0 <= i < |parts| ==> GoodPart(u, parts[i])
    requires Reads(u, text, CreateTokens(name, parts))
    ensures Declares(ParseCreateTable(u, Start(u, text)), name, ColumnsOf(parts), KeyOf(parts, ""))
  {
    hide Reads, StateReads, Consume, ConsumeAll, PartsTokens, Nameable, Start, Proper, ColumnsOf, KeyOf, LastNamed;
    var st, more := Start(u, text), PartsTokens(parts) + [Mark(")")];
    StartReads(u, text, CreateTokens(name, parts));
    assert CreateTokens(name, parts) == CreateHead(name) + more;
    var a, b := CreateHeadReads(u, st, name, more);
    var after := ColumnsRead(u, b, parts, [], "", [Mark(")")]);
    assert [Mark(")")] + [] == [Mark(")")];
    ConsumeReads(u, after, Mark(")"), [], Mark(")"));
    assert [] + ColumnsOf(parts) == ColumnsOf(parts);
  }

  /** A column whose type is any other word is refused, whatever stands before and behind it. */
  lemma OtherTypeRefused(u: Runes, text: string, name: string, parts: seq<Part>, comma: bool, column: string, typeName: string, more: seq<Token>)
    requires Proper(u) && Nameable(u, column) && forall i :: 0 <= i < |parts| ==> GoodPart(u, parts[i])
    requires typeName != "INT" && typeName != "STRING" && typeName != "BOOL"
    requires Reads(u, text, CreateHead(name) + (PartsTokens(parts) + (Commas(comma) + ([Name(column), Name(typeName)] + more))))
    ensures ParseCreateTable(u, Start(u, text)).None?
  {
    hide Reads, StateReads, Consume, ConsumeAll, PartsTokens, Nameable, Start, Proper, ColumnsOf, KeyOf, SkipComma, Commas, CreateHead;
    var st, own := Start(u, text), Commas(comma) + ([Name(column), Name(typeName)] + more);
    StartReads(u, text, CreateHead(name) + (PartsTokens(parts) + own));
    var a, b := CreateHeadReads(u, st, name, PartsTokens(parts) + own);
    var after := ColumnsRead(u, b, parts, [], "", own);
    NameIsNone(u, column);
    assert [Name(column), Name(typeName)] + more == [Name(column)] + ([Name(typeName)] + more);
    CommaReads(u, after, comma, Name(column), [Name(typeName)] + more);
    var c, d := ColumnReads(u, SkipComma(u, after), column, typeName, more);
  }

  // ----- INSERT INTO reads what it spells -----

  datatype Item = Item(comma: bool, value: string)

  function ItemsTokens(items: seq<Item>): seq<Token> {
    if items == [] then [] else Commas(items[0].comma) + ([Name(items[0].value)] + ItemsTokens(items[1..]))
  }

  function ItemValues(items: seq<Item>): seq<string> {
    seq(|items|, i requires 0 <= i < |items| => items[i].value)
  }

  function InsertHead(name: string): seq<Token> {
    [Word("INSERT"), Word("INTO")] + [Name(name), Word("VALUES"), Mark("(")]
  }

  function InsertTokens(name: string, items: seq<Item>): seq<Token> {
    InsertHead(name) + (ItemsTokens(items) + [Mark(")")])
  }

  /** What the loop of values takes for a value. */
  predicate Plain(s: string) {
    s != "" && s != ")" && s != ","
  }

  lemma ItemStep(u: Runes, st: State, item: Item, values: seq<string>, more: seq<Token>) returns (after: State)
    requires Plain(item.value)
    requires StateReads(u, st, Commas(item.comma) + ([Name(item.value)] + more))
    ensures StateReads(u, after, more)
    ensures ParseValues(u, st, values) == ParseValues(u, after, values + [item.value])
  {
    hide StateReads, Consume, SkipComma, Commas;
    CommaReads(u, st, item.comma, Name(item.value), more);
    var a := SkipComma(u, st);
    ConsumeReads(u, a, Name(item.value), more, ANY_NAME);
    after := Start(u, a.rest);
  }

  /** A value list up to some point: every value read so far is kept, in order. */
  lemma {:induction false} ItemsRead(u: Runes, st: State, items: seq<Item>, values: seq<string>, more: seq<Token>) returns (after: State)
    requires forall i :: 0 <= i < |items| ==> Plain(items[i].value)
    requires StateReads(u, st, ItemsTokens(items) + more)
    ensures StateReads(u, after, more)
    ensures ParseValues(u, st, values) == ParseValues(u, after, values + ItemValues(items))
    ensures items == [] ==> after == st
    decreases |items|
  {
    hide StateReads, ParseValues, Commas;
    if items == [] {
      assert ItemsTokens(items) + more == more && values + ItemValues(items) == values;
      after := st;
    } else {
      var item, rest := items[0], ItemsTokens(items[1..]) + more;
      assert ItemsTokens(items) + more == Commas(item.comma) + ([Name(item.value)] + rest);
      var next := ItemStep(u, st, item, values, rest);
      after := ItemsRead(u, next, items[1..], values + [item.value], more);
      assert values + [item.value] + ItemValues(items[1..]) == values + ItemValues(items);
    }
  }

  lemma InsertHeadReads(u: Runes, st: State, name: string, more: seq<Token>) returns (a: State, b: State)
    requires StateReads(u, st, InsertHead(name) + more)
    ensures ConsumeAll(u, st, [Word("INSERT"), Word("INTO")]) == Some(a) && a.current.value == name
    ensures ConsumeAll(u, a, [ANY_NAME, Word("VALUES"), Mark("(")]) == Some(b) && StateReads(u, b, more)
  {
    hide StateReads, ConsumeAll;
    var head, inner := [Word("INSERT"), Word("INTO")], [Name(name), Word("VALUES"), Mark("(")];
    assert InsertHead(name) + more == head + (inner + more);
    ConsumeAllReads(u, st, head, inner + more, head);
    a := ConsumeAll(u, st, head).value;
    ConsumeAllReads(u, a, inner, more, [ANY_NAME, Word("VALUES"), Mark("(")]);
    b := ConsumeAll(u, a, [ANY_NAME, Word("VALUES"), Mark("(")]).value;
  }

  lemma InsertReads(u: Runes, text: string, name: string, items: seq<Item>)
    requires Proper(u) && forall i :: 0 <= i < |items| ==> Nameable(u, items[i].value)
    requires Reads(u, text, InsertTokens(name, items))
    ensures ParseInsertIntoTable(u, Start(u, text)) == Done(InsertIntoTable(name, ItemValues(items)))
  {
    hide Reads, StateReads, Consume, ConsumeAll, ItemsTokens, InsertHead, Nameable, Start, Proper, ItemValues, SkipComma;
    var st, more := Start(u, text), ItemsTokens(items) + [Mark(")")];
    StartReads(u, text, InsertTokens(name, items));
    var a, b := InsertHeadReads(u, st, name, more);
    forall i | 0 <= i < |items|
      ensures Plain(items[i].value)
    {
      NameIsNone(u, items[i].value);
    }
    var after := ItemsRead(u, b, items, [], [Mark(")")]);
    assert [Mark(")")] + [] == [Mark(")")];
    ConsumeReads(u, after, Mark(")"), [], Mark(")"));
    assert [] + ItemValues(items) == ItemValues(items);
  }

  // ----- INSERT INTO and where it never ends -----

  /** No character is left that the tokeniser cannot get past. */
  predicate AllSupported(u: Runes, text: string) {
    forall i :: 0 <= i < |text| ==> u.space(text[i]) || Supported(u, text[i])
  }

  ghost predicate Unstuck(u: Runes, st: State) {
    AllSupported(u, st.rest) && (st.current.kind == Eof || st.current.value != "")
  }

  lemma FirstIsNoSpace(u: Runes, text: string)
    ensures Unspaced(u, text) != [] ==> !u.space(Unspaced(u, text)[0])
  {
    hide Run;
  }

  lemma StartUnstuck(u: Runes, text: string)
    requires AllSupported(u, text)
    ensures Unstuck(u, Start(u, text))
  {
    hide Run, First, Supported;
    var s, l := Unspaced(u, text), Next(u, text);
    NextSplits(u, text);
    assert forall i :: 0 <= i < |s| ==> s[i] == text[|text| - |s| + i];
    assert forall i :: 0 <= i < |l.rest| ==> l.rest[i] == s[|s| - |l.rest| + i];
    if l.token.kind != Eof {
      ProgressIff(u, text);
      FirstIsNoSpace(u, text);
    }
  }

  lemma {:induction false} AllUnstuck(u: Runes, st: State, expected: seq<Token>)
    requires Unstuck(u, st)
    ensures ConsumeAll(u, st, expected).Some? ==> Unstuck(u, ConsumeAll(u, st, expected).value)
    decreases |expected|
  {
    hide Unstuck, Start, Fits;
    if expected != [] && Consume(u, st, expected[0]).Some? {
      RestSupported(u, st);
      StartUnstuck(u, st.rest);
      AllUnstuck(u, Start(u, st.rest), expected[1..]);
    }
  }

  lemma RestSupported(u: Runes, st: State)
    requires Unstuck(u, st)
    ensures AllSupported(u, st.rest)
  {
  }

  lemma {:induction false} ValuesEnd(u: Runes, st: State, values: seq<string>)
    requires Unstuck(u, st)
    ensures ParseValues(u, st, values) != Forever
    decreases st.Size()
  {
    hide Start, AllSupported;
    if st.current.value != ")" {
      var a := SkipComma(u, st);
      StartUnstuck(u, st.rest);
      if Consume(u, a, ANY_NAME).Some? {
        StartUnstuck(u, a.rest);
        ValuesEnd(u, Start(u, a.rest), values + [a.current.value]);
      }
    }
  }

  /** On a text of supported characters INSERT ends. */
  lemma SupportedInsertEnds(u: Runes, text: string)
    requires AllSupported(u, text)
    ensures ParseInsertIntoTable(u, Start(u, text)) != Forever
  {
    hide Start, ConsumeAll, Consume, ParseValues, Unstuck, AllSupported;
    StartUnstuck(u, text);
    var st := Start(u, text);
    AllUnstuck(u, st, [Word("INSERT"), Word("INTO")]);
    var a := ConsumeAll(u, st, [Word("INSERT"), Word("INTO")]);
    if a.Some? {
      AllUnstuck(u, a.value, [ANY_NAME, Word("VALUES"), Mark("(")]);
      var b := ConsumeAll(u, a.value, [ANY_NAME, Word("VALUES"), Mark("(")]);
      if b.Some? {
        ValuesEnd(u, b.value, []);
      }
    }
  }

  /** The loop of values makes no headway at an unsupported character: one turn of it leaves
      the parser as it was. */
  lemma ForeverRepeats(u: Runes, text: string)
    requires Start(u, text).current == ANY_NAME
    ensures SkipComma(u, Start(u, text)) == Start(u, text)
    ensures Consume(u, Start(u, text), ANY_NAME) == Some(Start(u, text))
  {
    hide Next;
    StuckStays(u, text);
  }

  /** The text after its first n tokens. */
  function Past(u: Runes, text: string, n: nat): string {
    if n == 0 then text else Past(u, Next(u, text).rest, n - 1)
  }

  lemma {:induction false} ReadsConcat(u: Runes, text: string, a: seq<Token>, b: seq<Token>)
    ensures Reads(u, text, a + b) <==> Reads(u, text, a) && Reads(u, Past(u, text, |a|), b)
    decreases |a|
  {
    hide Next;
    if a == [] {
      assert a + b == b;
    } else {
      assert (a + b)[0] == a[0] && (a + b)[1..] == a[1..] + b;
      ReadsConcat(u, Next(u, text).rest, a[1..], b);
    }
  }

  /** Names the tokeniser gives are never a symbol. */
  lemma NextIsPlain(u: Runes, text: string)
    ensures var t := Next(u, text).token; t.kind == Identifier && t.value != "" ==> Plain(t.value)
    ensures var t := Next(u, text).token; t.value == "," || t.value == ")" ==> t.kind == Symbol
  {
    hide Run, Upper;
    NextSplits(u, text);
    var t := Next(u, text).token;
    assert t.value != "" ==> t.value[0] == Unspaced(u, text)[0];
  }

  /** Consumed tokens were read, and fit. */
  lemma {:induction false} ConsumedReads(u: Runes, text: string, expected: seq<Token>) returns (tokens: seq<Token>)
    requires ConsumeAll(u, Start(u, text), expected).Some?
    ensures |tokens| == |expected| && Reads(u, text, tokens)
    ensures forall i :: 0 <= i < |tokens| ==> Fits(tokens[i], expected[i])
    ensures ConsumeAll(u, Start(u, text), expected).value == Start(u, Past(u, text, |expected|))
    decreases |expected|
  {
    hide Next;
    if expected == [] {
      tokens := [];
    } else {
      var rest := ConsumedReads(u, Next(u, text).rest, expected[1..]);
      tokens := [Next(u, text).token] + rest;
      assert tokens[1..] == rest;
    }
  }

  /** A loop of values that never ends reads values and then a name of no characters, with or
      without a comma before it. */
  lemma {:induction false} ForeverReads(u: Runes, text: string, values: seq<string>) returns (items: seq<Item>, comma: bool)
    requires ParseValues(u, Start(u, text), values) == Forever
    ensures forall i :: 0 <= i < |items| ==> Plain(items[i].value)
    ensures Reads(u, text, ItemsTokens(items) + (Commas(comma) + [ANY_NAME]))
    decreases |text|, Start(u, text).Size()
  {
    hide Next, Plain;
    NextSplits(u, text);
    var st := Start(u, text);
    NextIsPlain(u, text);
    comma := st.current.value == ",";
    var a, rest := SkipComma(u, st), if comma then st.rest else text;
    assert a == Start(u, rest);
    NextSplits(u, rest);
    NextIsPlain(u, rest);
    items := [];
    if a.current.value == "" {
      CommaThen(u, text, comma, [ANY_NAME]);
      assert ItemsTokens(items) + (Commas(comma) + [ANY_NAME]) == Commas(comma) + [ANY_NAME];
    } else {
      var tail;
      items, tail := ForeverReads(u, a.rest, values + [a.current.value]);
      var more := ItemsTokens(items) + (Commas(tail) + [ANY_NAME]);
      CommaThen(u, text, comma, [a.current] + more);
      var item := Item(comma, a.current.value);
      ItemsTokensCons(item, items, Commas(tail) + [ANY_NAME]);
      items, comma := [item] + items, tail;
    }
  }

  lemma CommaThen(u: Runes, text: string, comma: bool, more: seq<Token>)
    requires comma ==> Next(u, text).token == Mark(",")
    requires Reads(u, if comma then Next(u, text).rest else text, more)
    ensures Reads(u, text, Commas(comma) + more)
  {
    hide Next;
    if comma {
      assert (Commas(comma) + more)[1..] == more;
    } else {
      assert Commas(comma) + more == more;
    }
  }

  lemma ItemsTokensCons(item: Item, items: seq<Item>, more: seq<Token>)
    ensures ItemsTokens([item] + items) + more == Commas(item.comma) + ([Name(item.value)] + (ItemsTokens(items) + more))
  {
    hide Commas;
    assert ([item] + items)[1..] == items;
  }

  /** A well-begun INSERT with a value list up to a place where the tokeniser is stuck. */
  ghost predicate GetsStuck(u: Runes, text: string, name: string, items: seq<Item>, comma: bool) {
    && (forall i :: 0 <= i < |items| ==> Plain(items[i].value))
    && Reads(u, text, InsertHead(name) + (ItemsTokens(items) + (Commas(comma) + [ANY_NAME])))
  }

  /** INSERT never ends on exactly the texts that get stuck like this. */
  lemma InsertIsForeverIff(u: Runes, text: string)
    ensures ParseInsertIntoTable(u, Start(u, text)) == Forever <==> exists name, items, comma :: GetsStuck(u, text, name, items, comma)
  {
    hide ParseInsertIntoTable, GetsStuck, Start;
    if ParseInsertIntoTable(u, Start(u, text)) == Forever {
      var name, items, comma := ForeverGetsStuck(u, text);
      assert GetsStuck(u, text, name, items, comma);
    }
    if name, items, comma :| GetsStuck(u, text, name, items, comma) {
      StuckIsForever(u, text, name, items, comma);
    }
  }

  lemma ForeverGetsStuck(u: Runes, text: string) returns (name: string, items: seq<Item>, comma: bool)
    requires ParseInsertIntoTable(u, Start(u, text)) == Forever
    ensures GetsStuck(u, text, name, items, comma)
  {
    hide Next, ConsumeAll, Consume, ParseValues, Reads, Plain, Start, ItemsTokens, Commas;
    var head, inner := [Word("INSERT"), Word("INTO")], [ANY_NAME, Word("VALUES"), Mark("(")];
    var first := ConsumedReads(u, text, head);
    assert first == head;
    var text2 := Past(u, text, 2);
    var second := ConsumedReads(u, text2, inner);
    name := second[0].value;
    NamedStart(u, text2, second);
    assert second == [Name(name), Word("VALUES"), Mark("(")];
    items, comma := ForeverReads(u, Past(u, text2, 3), []);
    var more := ItemsTokens(items) + (Commas(comma) + [ANY_NAME]);
    ReadsConcat(u, text2, second, more);
    ReadsConcat(u, text, first, second + more);
    assert InsertHead(name) + more == first + (second + more);
  }

  lemma NamedStart(u: Runes, text: string, tokens: seq<Token>)
    requires tokens != [] && Reads(u, text, tokens)
    ensures Start(u, text).current == tokens[0]
  {
  }

  lemma StuckIsForever(u: Runes, text: string, name: string, items: seq<Item>, comma: bool)
    requires GetsStuck(u, text, name, items, comma)
    ensures ParseInsertIntoTable(u, Start(u, text)) == Forever
  {
    hide Reads, StateReads, Consume, ConsumeAll, ItemsTokens, InsertHead, Plain, Start, ItemValues, SkipComma, Commas;
    var st, last := Start(u, text), Commas(comma) + [ANY_NAME];
    StartReads(u, text, InsertHead(name) + (ItemsTokens(items) + last));
    var a, b := InsertHeadReads(u, st, name, ItemsTokens(items) + last);
    var after := ItemsRead(u, b, items, [], last);
    assert [ANY_NAME] + [] == [ANY_NAME];
    CommaReads(u, after, comma, ANY_NAME, []);
    ConsumeReads(u, SkipComma(u, after), ANY_NAME, [], ANY_NAME);
  }

  // ----- SELECT reads what it spells -----

  datatype Wanted = Wanted(comma: bool, column: string)

  function WantedToken(column: string): Token {
    if column == "*" then Mark("*") else Name(column)
  }

  function WantedTokens(wanted: seq<Wanted>): seq<Token> {
    if wanted == [] then [] else Commas(wanted[0].comma) + ([WantedToken(wanted[0].column)] + WantedTokens(wanted[1..]))
  }

  function WantedColumns(wanted: seq<Wanted>): seq<string> {
    seq(|wanted|, i requires 0 <= i < |wanted| => wanted[i].column)
  }

  function ConditionTokens(c: QueryCondition): seq<Token> {
    [Name(c.column), Token(Comparison, c.operator), Name(c.value)]
  }

  /** Conditions with an AND before each but the very first. */
  function ConditionsTokens(conditions: seq<QueryCondition>, first: bool): seq<Token> {
    if conditions == [] then []
    else (if first then [] else [Word("AND")]) + (ConditionTokens(conditions[0]) + ConditionsTokens(conditions[1..], false))
  }

  function WhereTokens(conditions: seq<QueryCondition>): seq<Token> {
    if conditions == [] then [] else [Word("WHERE")] + ConditionsTokens(conditions, true)
  }

  function SelectTokens(name: string, wanted: seq<Wanted>, conditions: seq<QueryCondition>): seq<Token> {
    [Word("SELECT")] + (WantedTokens(wanted) + ([Word("FROM")] + ([Name(name)] + (WhereTokens(conditions) + [Mark(";")]))))
  }

  predicate GoodWanted(u: Runes, w: Wanted) {
    w.column == "*" || Nameable(u, w.column)
  }

  predicate GoodCondition(u: Runes, c: QueryCondition) {
    Nameable(u, c.column) && Nameable(u, c.value) && Spellable(u, Token(Comparison, c.operator))
  }

  lemma CommaConsumed(u: Runes, st: State, comma: bool, t: Token, more: seq<Token>)
    requires StateReads(u, st, Commas(comma) + ([t] + more)) && t.value != ","
    ensures (if st.current.value == "," then Consume(u, st, Mark(",")) else Some(st)) == Some(SkipComma(u, st))
  {
    hide StateReads;
    CommaReads(u, st, comma, t, more);
    if comma {
      ConsumeReads(u, st, Mark(","), [t] + more, Mark(","));
    }
  }

  lemma WantedStep(u: Runes, st: State, w: Wanted, columns: seq<string>, more: seq<Token>) returns (after: State)
    requires Proper(u) && |columns| <= COLUMNS_LIMIT && GoodWanted(u, w)
    requires StateReads(u, st, Commas(w.comma) + ([WantedToken(w.column)] + more))
    ensures StateReads(u, after, more)
    ensures ParseSelected(u, st, columns) ==
      if |columns| == COLUMNS_LIMIT then None else ParseSelected(u, after, columns + [w.column])
  {
    hide StateReads, Consume, Nameable, SkipComma, Commas, Proper;
    var t := WantedToken(w.column);
    if w.column != "*" {
      NameIsNone(u, w.column);
    }
    CommaReads(u, st, w.comma, t, more);
    CommaConsumed(u, st, w.comma, t, more);
    var a := SkipComma(u, st);
    ConsumeReads(u, a, t, more, if w.column == "*" then Mark("*") else ANY_NAME);
    after := Start(u, a.rest);
  }

  lemma {:induction false} WantedRead(u: Runes, st: State, wanted: seq<Wanted>, columns: seq<string>, more: seq<Token>) returns (after: State)
    requires Proper(u) && |columns| <= COLUMNS_LIMIT && forall i :: 0 <= i < |wanted| ==> GoodWanted(u, wanted[i])
    requires StateReads(u, st, WantedTokens(wanted) + ([Word("FROM")] + more))
    ensures StateReads(u, after, [Word("FROM")] + more)
    ensures ParseSelected(u, st, columns) ==
      if |columns| + |wanted| <= COLUMNS_LIMIT then Some(Selected(columns + WantedColumns(wanted), after)) else None
    decreases |wanted|
  {
    hide StateReads, Consume, GoodWanted, Commas, WantedToken, SkipComma, Proper;
    if wanted == [] {
      assert WantedTokens(wanted) + ([Word("FROM")] + more) == [Word("FROM")] + more;
      ConsumeReads(u, st, Word("FROM"), more, Word("FROM"));
      assert columns + WantedColumns(wanted) == columns;
      after := st;
    } else {
      var w, rest := wanted[0], WantedTokens(wanted[1..]) + ([Word("FROM")] + more);
      assert WantedTokens(wanted) + ([Word("FROM")] + more) == Commas(w.comma) + ([WantedToken(w.column)] + rest);
      var next := WantedStep(u, st, w, columns, rest);
      if |columns| < COLUMNS_LIMIT {
        after := WantedRead(u, next, wanted[1..], columns + [w.column], more);
        assert columns + [w.column] + WantedColumns(wanted[1..]) == columns + WantedColumns(wanted);
      } else {
        after := WantedRead(u, next, wanted[1..], [], more);
      }
    }
  }

  lemma ConditionRead(u: Runes, st: State, c: QueryCondition, more: seq<Token>)
    requires StateReads(u, st, ConditionTokens(c) + more)
    ensures ParseCondition(u, st).Some? && ParseCondition(u, st).value.conditions == [c]
    ensures StateReads(u, ParseCondition(u, st).value.st, more) && st.current == Name(c.column)
  {
    hide StateReads, Consume;
    var column, operator, value := Name(c.column), Token(Comparison, c.operator), Name(c.value);
    assert ConditionTokens(c) + more == [column] + ([operator] + ([value] + more));
    ConsumeReads(u, st, column, [operator] + ([value] + more), ANY_NAME);
    var a := Start(u, st.rest);
    ConsumeReads(u, a, operator, [value] + more, Token(Comparison, ""));
    ConsumeReads(u, Start(u, a.rest), value, more, ANY_NAME);
  }

  lemma ConditionStep(u: Runes, st: State, c: QueryCondition, conditions: seq<QueryCondition>, more: seq<Token>) returns (after: State)
    requires Proper(u) && |conditions| <= CONDITIONS_LIMIT && GoodCondition(u, c)
    requires StateReads(u, st, (if conditions == [] then [] else [Word("AND")]) + (ConditionTokens(c) + more))
    ensures StateReads(u, after, more)
    ensures ParseConditions(u, st, conditions) ==
      if |conditions| == CONDITIONS_LIMIT then None else ParseConditions(u, after, conditions + [c])
  {
    hide StateReads, Consume, Nameable, ConditionTokens, ParseCondition, Proper, Spellable;
    NameIsNone(u, c.column);
    var a := st;
    if conditions == [] {
      assert [] + (ConditionTokens(c) + more) == ConditionTokens(c) + more;
    } else {
      ConsumeReads(u, st, Word("AND"), ConditionTokens(c) + more, Word("AND"));
      a := Start(u, st.rest);
    }
    ConditionRead(u, a, c, more);
    after := ParseCondition(u, a).value.st;
  }

  lemma {:induction false} ConditionsRead(u: Runes, st: State, asked: seq<QueryCondition>, conditions: seq<QueryCondition>)
    returns (after: State)
    requires Proper(u) && |conditions| <= CONDITIONS_LIMIT && forall i :: 0 <= i < |asked| ==> GoodCondition(u, asked[i])
    requires StateReads(u, st, ConditionsTokens(asked, conditions == []) + [Mark(";")])
    ensures |conditions| + |asked| <= CONDITIONS_LIMIT ==> StateReads(u, after, [Mark(";")])
    ensures ParseConditions(u, st, conditions) ==
      if |conditions| + |asked| <= CONDITIONS_LIMIT then Some(Conditions(conditions + asked, after)) else None
    decreases |asked|
  {
    hide StateReads, Consume, GoodCondition, ConditionTokens, ParseCondition, Proper;
    after := st;
    if asked == [] {
      assert ConditionsTokens(asked, conditions == []) + [Mark(";")] == [Mark(";")] == [Mark(";")] + [];
      ConsumeReads(u, st, Mark(";"), [], Mark(";"));
      assert conditions + asked == conditions;
    } else {
      var c, rest := asked[0], ConditionsTokens(asked[1..], false) + [Mark(";")];
      assert ConditionsTokens(asked, conditions == []) + [Mark(";")] ==
        (if conditions == [] then [] else [Word("AND")]) + (ConditionTokens(c) + rest);
      after := ConditionStep(u, st, c, conditions, rest);
      if |conditions| < CONDITIONS_LIMIT {
        assert conditions + [c] != [];
        after := ConditionsRead(u, after, asked[1..], conditions + [c]);
        assert conditions + [c] + asked[1..] == conditions + asked;
      }
    }
  }

  lemma WhereRead(u: Runes, st: State, asked: seq<QueryCondition>) returns (after: State)
    requires Proper(u) && forall i :: 0 <= i < |asked| ==> GoodCondition(u, asked[i])
    requires StateReads(u, st, WhereTokens(asked) + [Mark(";")])
    ensures |asked| <= CONDITIONS_LIMIT ==> StateReads(u, after, [Mark(";")])
    ensures ParseWhere(u, st) == if |asked| <= CONDITIONS_LIMIT then Some(Conditions(asked, after)) else None
  {
    hide StateReads, Consume, GoodCondition, ConditionsTokens, ParseConditions, Proper;
    if asked == [] {
      assert WhereTokens(asked) + [Mark(";")] == [Mark(";")] == [Mark(";")] + [];
      ConsumeReads(u, st, Mark(";"), [], Mark(";"));
      after := st;
    } else {
      var more := ConditionsTokens(asked, true) + [Mark(";")];
      assert WhereTokens(asked) + [Mark(";")] == [Word("WHERE")] + more;
      ConsumeReads(u, st, Word("WHERE"), more, Word("WHERE"));
      after := ConditionsRead(u, Start(u, st.rest), asked, []);
      assert [] + asked == asked;
    }
  }

  /** SELECT reads as its columns and conditions in order, and is refused exactly when it has no
      column, more than ten, or more than eleven conditions. */
  lemma SelectReads(u: Runes, text: string, name: string, wanted: seq<Wanted>, asked: seq<QueryCondition>)
    requires Proper(u) && Nameable(u, name)
    requires forall i :: 0 <= i < |wanted| ==> GoodWanted(u, wanted[i])
    requires forall i :: 0 <= i < |asked| ==> GoodCondition(u, asked[i])
    requires Reads(u, text, SelectTokens(name, wanted, asked))
    ensures ParseSelectFromTable(u, Start(u, text)) ==
      if 1 <= |wanted| <= COLUMNS_LIMIT && |asked| <= CONDITIONS_LIMIT then
        Some(SelectFromTable(name, WantedColumns(wanted), asked))
      else None
  {
    hide Reads, StateReads, Consume, ParseSelected, ParseWhere, WantedTokens, WhereTokens, Start, Proper, Nameable,
      GoodWanted, GoodCondition;
    var st, ending := Start(u, text), WhereTokens(asked) + [Mark(";")];
    var more := [Name(name)] + ending;
    var columns := WantedTokens(wanted) + ([Word("FROM")] + more);
    StartReads(u, text, SelectTokens(name, wanted, asked));
    ConsumeReads(u, st, Word("SELECT"), columns, Word("SELECT"));
    var s := WantedRead(u, Start(u, st.rest), wanted, [], more);
    assert [] + WantedColumns(wanted) == WantedColumns(wanted);
    ConsumeReads(u, s, Word("FROM"), more, Word("FROM"));
    var b := Start(u, s.rest);
    ConsumeReads(u, b, Name(name), ending, ANY_NAME);
    var w := WhereRead(u, Start(u, b.rest), asked);
    if |asked| <= CONDITIONS_LIMIT {
      assert [Mark(";")] + [] == [Mark(";")];
      ConsumeReads(u, w, Mark(";"), [], Mark(";"));
    }
  }

  // ----- any spacing -----

  ghost predicate AllSpellable(u: Runes, tokens: seq<Token>) {
    forall i :: 0 <= i < |tokens| ==> Spellable(u, tokens[i])
  }

  lemma SpellableConcat(u: Runes, a: seq<Token>, b: seq<Token>)
    requires AllSpellable(u, a) && AllSpellable(u, b)
    ensures AllSpellable(u, a + b)
  {
    hide Spellable;
    forall i | 0 <= i < |a + b|
      ensures Spellable(u, (a + b)[i])
    {
      assert (a + b)[i] == if i < |a| then a[i] else b[i - |a|];
    }
  }

  lemma CapitalsSpell(u: Runes, s: string)
    requires Proper(u) && s != "" && forall i :: 0 <= i < |s| ==> 'A' <= s[i] <= 'Z'
    ensures Spellable(u, if s in KEYWORDS then Word(s) else Name(s))
  {
    CapitalsStay(u, s);
    assert forall i :: 0 <= i < |s| ==> u.word(s[i]);
  }

  lemma PartSpells(u: Runes, part: Part)
    requires Proper(u) && GoodPart(u, part)
    ensures AllSpellable(u, Commas(part.comma) + PartTokens(part))
  {
    hide Proper, Upper;
    CapitalsSpell(u, "PRIMARY");
    CapitalsSpell(u, "KEY");
    CapitalsSpell(u, "INT");
    CapitalsSpell(u, "STRING");
    CapitalsSpell(u, "BOOL");
    assert AllSpellable(u, Commas(part.comma));
    SpellableConcat(u, Commas(part.comma), PartTokens(part));
  }

  lemma {:induction false} PartsSpell(u: Runes, parts: seq<Part>)
    requires Proper(u) && forall i :: 0 <= i < |parts| ==> GoodPart(u, parts[i])
    ensures AllSpellable(u, PartsTokens(parts))
  {
    hide Proper, Spellable, GoodPart, Commas, PartTokens;
    if parts != [] {
      PartSpells(u, parts[0]);
      PartsSpell(u, parts[1..]);
      var own := Commas(parts[0].comma) + PartTokens(parts[0]);
      SpellableConcat(u, own, PartsTokens(parts[1..]));
      assert PartsTokens(parts) == own + PartsTokens(parts[1..]);
    }
  }

  lemma OneItemSpells(u: Runes, item: Item)
    requires Nameable(u, item.value)
    ensures AllSpellable(u, Commas(item.comma) + [Name(item.value)])
  {
    hide Upper;
    SpellableConcat(u, Commas(item.comma), [Name(item.value)]);
  }

  lemma {:induction false} ItemsSpell(u: Runes, items: seq<Item>)
    requires Proper(u) && forall i :: 0 <= i < |items| ==> Nameable(u, items[i].value)
    ensures AllSpellable(u, ItemsTokens(items))
  {
    hide Proper, Spellable, Nameable, Commas;
    if items != [] {
      OneItemSpells(u, items[0]);
      ItemsSpell(u, items[1..]);
      var own := Commas(items[0].comma) + [Name(items[0].value)];
      SpellableConcat(u, own, ItemsTokens(items[1..]));
      assert ItemsTokens(items) == own + ItemsTokens(items[1..]);
    }
  }

  lemma OneWantedSpells(u: Runes, w: Wanted)
    requires Proper(u) && GoodWanted(u, w)
    ensures AllSpellable(u, Commas(w.comma) + [WantedToken(w.column)])
  {
    hide Proper, Upper;
    SpellableConcat(u, Commas(w.comma), [WantedToken(w.column)]);
  }

  lemma {:induction false} WantedSpell(u: Runes, wanted: seq<Wanted>)
    requires Proper(u) && forall i :: 0 <= i < |wanted| ==> GoodWanted(u, wanted[i])
    ensures AllSpellable(u, WantedTokens(wanted))
  {
    hide Proper, Spellable, GoodWanted, Commas, WantedToken;
    if wanted != [] {
      OneWantedSpells(u, wanted[0]);
      WantedSpell(u, wanted[1..]);
      var own := Commas(wanted[0].comma) + [WantedToken(wanted[0].column)];
      SpellableConcat(u, own, WantedTokens(wanted[1..]));
      assert WantedTokens(wanted) == own + WantedTokens(wanted[1..]);
    }
  }

  lemma OneConditionSpells(u: Runes, c: QueryCondition, first: bool)
    requires Proper(u) && GoodCondition(u, c)
    ensures AllSpellable(u, (if first then [] else [Word("AND")]) + ConditionTokens(c))
  {
    hide Proper, Upper;
    CapitalsSpell(u, "AND");
    SpellableConcat(u, if first then [] else [Word("AND")], ConditionTokens(c));
  }

  lemma {:induction false} ConditionsSpell(u: Runes, asked: seq<QueryCondition>, first: bool)
    requires Proper(u) && forall i :: 0 <= i < |asked| ==> GoodCondition(u, asked[i])
    ensures AllSpellable(u, ConditionsTokens(asked, first))
  {
    hide Proper, Spellable, GoodCondition, ConditionTokens;
    if asked != [] {
      OneConditionSpells(u, asked[0], first);
      ConditionsSpell(u, asked[1..], false);
      var own := (if first then [] else [Word("AND")]) + ConditionTokens(asked[0]);
      SpellableConcat(u, own, ConditionsTokens(asked[1..], false));
      assert ConditionsTokens(asked, first) == own + ConditionsTokens(asked[1..], false);
    }
  }

  /** CREATE TABLE written with any spacing, commas and order of its parts parses to what it
      spells. */
  lemma CreateRoundTrip(u: Runes, name: string, parts: seq<Part>, gaps: seq<string>, tail: string)
    requires Proper(u) && Nameable(u, name) && forall i :: 0 <= i < |parts| ==> GoodPart(u, parts[i])
    requires Spaced(u, CreateTokens(name, parts), gaps)
    ensures Declares(ParseCreateTable(u, Start(u, Text(CreateTokens(name, parts), gaps, tail))), name, ColumnsOf(parts), KeyOf(parts, ""))
  {
    hide Proper, Spellable, PartsTokens, ParseCreateTable, Text, Start, Reads, GoodPart, ColumnsOf, KeyOf, Declares;
    CreateSpells(u, name, parts);
    var tokens := CreateTokens(name, parts);
    assert tokens[|tokens| - 1] == Mark(")");
    TextReads(u, tokens, gaps, tail);
    CreateReads(u, Text(tokens, gaps, tail), name, parts);
  }

  lemma CreateSpells(u: Runes, name: string, parts: seq<Part>)
    requires Proper(u) && Nameable(u, name) && forall i :: 0 <= i < |parts| ==> GoodPart(u, parts[i])
    ensures AllSpellable(u, CreateTokens(name, parts))
  {
    hide Proper, Upper, PartsTokens, GoodPart;
    CapitalsSpell(u, "CREATE");
    CapitalsSpell(u, "TABLE");
    PartsSpell(u, parts);
    var head := [Word("CREATE"), Word("TABLE"), Name(name), Mark("(")];
    SpellableConcat(u, head, PartsTokens(parts));
    SpellableConcat(u, head + PartsTokens(parts), [Mark(")")]);
    assert CreateTokens(name, parts) == head + PartsTokens(parts) + [Mark(")")];
  }

  lemma InsertSpells(u: Runes, name: string, items: seq<Item>)
    requires Proper(u) && Nameable(u, name) && forall i :: 0 <= i < |items| ==> Nameable(u, items[i].value)
    ensures AllSpellable(u, InsertTokens(name, items))
  {
    hide Proper, Upper, ItemsTokens;
    CapitalsSpell(u, "INSERT");
    CapitalsSpell(u, "INTO");
    CapitalsSpell(u, "VALUES");
    ItemsSpell(u, items);
    var head := [Word("INSERT"), Word("INTO"), Name(name), Word("VALUES"), Mark("(")];
    SpellableConcat(u, head, ItemsTokens(items));
    SpellableConcat(u, head + ItemsTokens(items), [Mark(")")]);
    assert InsertTokens(name, items) == head + ItemsTokens(items) + [Mark(")")];
  }

  /** INSERT INTO written with any spacing and commas parses to what it spells. */
  lemma InsertRoundTrip(u: Runes, name: string, items: seq<Item>, gaps: seq<string>, tail: string)
    requires Proper(u) && Nameable(u, name) && forall i :: 0 <= i < |items| ==> Nameable(u, items[i].value)
    requires Spaced(u, InsertTokens(name, items), gaps)
    ensures ParseInsertIntoTable(u, Start(u, Text(InsertTokens(name, items), gaps, tail))) ==
      Done(InsertIntoTable(name, ItemValues(items)))
  {
    hide Proper, Spellable, ItemsTokens, ParseInsertIntoTable, Text, Start, Reads, ItemValues, InsertHead;
    InsertSpells(u, name, items);
    var tokens := InsertTokens(name, items);
    assert tokens[|tokens| - 1] == Mark(")");
    TextReads(u, tokens, gaps, tail);
    InsertReads(u, Text(tokens, gaps, tail), name, items);
  }

  lemma SelectSpells(u: Runes, name: string, wanted: seq<Wanted>, asked: seq<QueryCondition>)
    requires Proper(u) && Nameable(u, name)
    requires forall i :: 0 <= i < |wanted| ==> GoodWanted(u, wanted[i])
    requires forall i :: 0 <= i < |asked| ==> GoodCondition(u, asked[i])
    ensures AllSpellable(u, SelectTokens(name, wanted, asked))
  {
    hide Proper, Upper, WantedTokens, ConditionsTokens, GoodWanted, GoodCondition;
    CapitalsSpell(u, "SELECT");
    CapitalsSpell(u, "FROM");
    CapitalsSpell(u, "WHERE");
    WantedSpell(u, wanted);
    ConditionsSpell(u, asked, true);
    var a, b := [Word("SELECT")] + WantedTokens(wanted), [Word("FROM"), Name(name)];
    SpellableConcat(u, [Word("SELECT")], WantedTokens(wanted));
    SpellableConcat(u, a, b);
    SpellableConcat(u, [Word("WHERE")], ConditionsTokens(asked, true));
    assert AllSpellable(u, WhereTokens(asked));
    SpellableConcat(u, a + b, WhereTokens(asked));
    SpellableConcat(u, a + b + WhereTokens(asked), [Mark(";")]);
    assert SelectTokens(name, wanted, asked) == a + b + WhereTokens(asked) + [Mark(";")];
  }

  /** SELECT written with any spacing and commas parses to what it spells, within the limits of
      ten columns and eleven conditions. */
  lemma SelectRoundTrip(u: Runes, name: string, wanted: seq<Wanted>, asked: seq<QueryCondition>, gaps: seq<string>, tail: string)
    requires Proper(u) && Nameable(u, name)
    requires forall i :: 0 <= i < |wanted| ==> GoodWanted(u, wanted[i])
    requires forall i :: 0 <= i < |asked| ==> GoodCondition(u, asked[i])
    requires Spaced(u, SelectTokens(name, wanted, asked), gaps)
    ensures ParseSelectFromTable(u, Start(u, Text(SelectTokens(name, wanted, asked), gaps, tail))) ==
      if 1 <= |wanted| <= COLUMNS_LIMIT && |asked| <= CONDITIONS_LIMIT then
        Some(SelectFromTable(name, WantedColumns(wanted), asked))
      else None
  {
    hide Proper, Spellable, WantedTokens, WhereTokens, ParseSelectFromTable, Text, Start, Reads, GoodWanted,
      GoodCondition, WantedColumns;
    SelectSpells(u, name, wanted, asked);
    var tokens := SelectTokens(name, wanted, asked);
    assert tokens[|tokens| - 1] == Mark(";");
    TextReads(u, tokens, gaps, tail);
    SelectReads(u, Text(tokens, gaps, tail), name, wanted, asked);
  }
}
