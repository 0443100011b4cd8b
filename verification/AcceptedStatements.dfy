/** The other direction of the statement parsers: whatever they accept spells a statement, and it
    is the one they return (sql_parser/parser.go). */
module AcceptedStatements {
  import opened ByteStrings
  import opened Tokeniser
  import opened Parser
  import Rows

  // ----- tokens of any text -----

  /** A name that is not empty can be written, and a symbol is never a name. */
  lemma NextIsSpellable(u: Runes, text: string)
    ensures var t := Next(u, text).token;
      && (t.kind == Identifier && t.value != "" ==> Nameable(u, t.value))
      && (t.kind == Comparison ==> Spellable(u, t))
      && (t.value == ")" || t.value == "," || t.value == "*" || t.value == ";" ==> t.kind == Symbol)
  {
    hide Run, Upper;
    NextSplits(u, text);
    var s, t := Unspaced(u, text), Next(u, text).token;
    assert forall i :: 0 <= i < |t.value| ==> t.value[i] == s[i];
  }

  /** Behind a name of no characters there is only the same again. */
  lemma EmptyNameRepeats(u: Runes, text: string)
    requires Next(u, text).token == ANY_NAME
    ensures Next(u, Next(u, text).rest).token == ANY_NAME
  {
    hide Next;
    StuckStays(u, text);
  }

  lemma ReadsOne(u: Runes, text: string, t: Token, more: seq<Token>)
    requires Next(u, text).token == t && Reads(u, Next(u, text).rest, more)
    ensures Reads(u, text, [t] + more)
  {
    hide Next;
    assert ([t] + more)[1..] == more;
  }

  /** What stands behind the optional comma. */
  function PastComma(u: Runes, text: string): string {
    if Next(u, text).token.value == "," then Next(u, text).rest else text
  }

  lemma CommaSkipped(u: Runes, text: string)
    ensures SkipComma(u, Start(u, text)) == Start(u, PastComma(u, text))
    ensures Next(u, text).token.value == "," ==> Consume(u, Start(u, text), Mark(",")) == Some(Start(u, PastComma(u, text)))
  {
    hide Next;
    NextIsSpellable(u, text);
  }

  lemma CommaSpelt(u: Runes, text: string, more: seq<Token>) returns (comma: bool)
    requires Reads(u, PastComma(u, text), more)
    ensures Reads(u, text, Commas(comma) + more) && PastComma(u, text) == Past(u, text, |Commas(comma)|)
  {
    hide Next;
    NextIsSpellable(u, text);
    comma := Next(u, text).token.value == ",";
    CommaThen(u, text, comma, more);
    PastOne(u, text);
  }

  // ----- CREATE TABLE -----

  lemma KeySpelt(u: Runes, text: string) returns (name: string)
    requires Proper(u) && ParseKey(u, Start(u, text)).Some?
    ensures Nameable(u, name) && Reads(u, text, PartTokens(KeyPart(false, name)))
    ensures ParseKey(u, Start(u, text)) == Some(Key(name, Start(u, Past(u, text, 5))))
  {
    hide Next, ConsumeAll, Reads, Past, Nameable;
    var head, inner := [Word("PRIMARY"), Word("KEY"), Mark("(")], [ANY_NAME, Mark(")")];
    var first := ConsumedReads(u, text, head);
    assert first == head;
    var text2 := Past(u, text, 3);
    var second := ConsumedReads(u, text2, inner);
    name := second[0].value;
    assert second == [Name(name), Mark(")")];
    NameThenMark(u, text2, second[0], second[1]);
    ReadsConcat(u, text, first, second);
    PastConcat(u, text, 3, 2);
    assert first + second == PartTokens(KeyPart(false, name));
    NamedStart(u, text2, second);
  }

  lemma {:induction false} PastConcat(u: Runes, text: string, m: nat, n: nat)
    ensures Past(u, Past(u, text, m), n) == Past(u, text, m + n)
    decreases m
  {
    hide Next;
    if m > 0 {
      PastConcat(u, Next(u, text).rest, m - 1, n);
    }
  }

  /** A name with something other than a name behind it is not empty. */
  lemma NameThenMark(u: Runes, text: string, name: Token, mark: Token)
    requires Reads(u, text, [name, mark]) && name.kind == Identifier && mark != ANY_NAME
    ensures Nameable(u, name.value)
  {
    hide Next, Nameable;
    assert [name, mark][1..][0] == mark;
    NextIsSpellable(u, text);
    if name.value == "" {
      EmptyNameRepeats(u, text);
    }
  }

  lemma ReadsNone(u: Runes, text: string)
    ensures Reads(u, text, [])
  {
  }

  lemma TypeSpelt(s: string)
    requires TypeOf(s).Some?
    ensures s == TypeWord(TypeOf(s).value) && !TypeOf(s).value.Other?
  {
  }

  /** A name and a type that the loop of columns has consumed. */
  lemma ColumnSpelt(u: Runes, text: string) returns (part: Part)
    requires Proper(u)
    requires var a := Start(u, text);
      && Consume(u, a, ANY_NAME).Some? && Consume(u, Start(u, a.rest), ANY_NAME).Some?
      && TypeOf(Start(u, a.rest).current.value).Some?
    ensures part.ColumnPart? && GoodPart(u, part) && Reads(u, text, PartTokens(part))
    ensures part.name != "" && part.name == Start(u, text).current.value && Past(u, text, 2) == Start(u, Start(u, text).rest).rest
    ensures TypeOf(Start(u, Start(u, text).rest).current.value) == Some(part.dataType)
  {
    hide Next, Nameable;
    var l := Next(u, text);
    var m := Next(u, l.rest);
    TypeSpelt(m.token.value);
    part := ColumnPart(false, l.token.value, TypeOf(m.token.value).value);
    NextIsSpellable(u, text);
    if l.token.value == "" {
      EmptyNameRepeats(u, text);
    }
    ReadsNone(u, m.rest);
    ReadsOne(u, l.rest, m.token, []);
    ReadsOne(u, text, l.token, [m.token]);
    assert PartTokens(part) == [l.token] + [m.token];
    PastTwo(u, text);
  }

  lemma PastOne(u: Runes, text: string)
    ensures Past(u, text, 1) == Next(u, text).rest
  {
    hide Next;
    assert Past(u, Next(u, text).rest, 0) == Next(u, text).rest;
  }

  lemma PastTwo(u: Runes, text: string)
    ensures Past(u, text, 2) == Next(u, Next(u, text).rest).rest
  {
    hide Next;
    assert Past(u, Next(u, text).rest, 1) == Past(u, Next(u, Next(u, text).rest).rest, 0);
  }

  /** One turn of the loop: behind an optional comma stands the part it reads. */
  lemma TurnSpelt(u: Runes, text: string, columns: seq<ColumnSpec>, pk: string) returns (part: Part, rest: string)
    requires Proper(u) && ParseColumns(u, Start(u, text), columns, pk).Some? && Start(u, text).current.value != ")"
    ensures GoodPart(u, part) && Reads(u, PastComma(u, text), PartTokens(part))
    ensures rest == Past(u, PastComma(u, text), |PartTokens(part)|) && Start(u, rest).Size() < Start(u, text).Size()
    ensures ParseColumns(u, Start(u, text), columns, pk) ==
      if part.KeyPart? then ParseColumns(u, Start(u, rest), columns, part.name)
      else ParseColumns(u, Start(u, rest), columns + [ColumnSpec(part.name, part.dataType)], pk)
  {
    hide Start, Reads, ParseKey, Nameable, TypeOf, Past, SkipComma;
    CommaSkipped(u, text);
    var text1 := PastComma(u, text);
    var a := Start(u, text1);
    if a.current.value == "PRIMARY" {
      var name := KeySpelt(u, text1);
      part, rest := KeyPart(false, name), Past(u, text1, 5);
    } else {
      part := ColumnSpelt(u, text1);
      rest := Past(u, text1, 2);
    }
  }

  lemma {:induction false} ColumnsSpelt(u: Runes, text: string, columns: seq<ColumnSpec>, pk: string) returns (parts: seq<Part>)
    requires Proper(u) && ParseColumns(u, Start(u, text), columns, pk).Some?
    ensures forall i :: 0 <= i < |parts| ==> GoodPart(u, parts[i])
    ensures Reads(u, text, PartsTokens(parts) + [Mark(")")])
    decreases Start(u, text).Size()
  {
    hide Next, Reads, ParseColumns, Commas, GoodPart, PartTokens, PartsTokens;
    if Start(u, text).current.value == ")" {
      NextIsSpellable(u, text);
      parts := [];
      ReadsNone(u, Next(u, text).rest);
      ReadsOne(u, text, Mark(")"), []);
      NoParts([], [Mark(")")]);
      assert [Mark(")")] + [] == [Mark(")")];
    } else {
      var part, rest := TurnSpelt(u, text, columns, pk);
      var more;
      if part.KeyPart? {
        more := ColumnsSpelt(u, rest, columns, part.name);
      } else {
        more := ColumnsSpelt(u, rest, columns + [ColumnSpec(part.name, part.dataType)], pk);
      }
      var tail := PartsTokens(more) + [Mark(")")];
      ReadsConcat(u, PastComma(u, text), PartTokens(part), tail);
      var comma := CommaSpelt(u, text, PartTokens(part) + tail);
      parts := [WithComma(u, part, comma)] + more;
      assert parts[1..] == more;
      PartsTokensCons(parts, [Mark(")")]);
    }
  }

  function WithComma(u: Runes, part: Part, comma: bool): (p: Part)
    ensures p.comma == comma && PartTokens(p) == PartTokens(part)
    ensures GoodPart(u, part) ==> GoodPart(u, p)
  {
    part.(comma := comma)
  }

  /** A well-formed CREATE TABLE at the start of a text. */
  ghost predicate SpellsCreate(u: Runes, text: string, name: string, parts: seq<Part>) {
    && Nameable(u, name) && (forall i :: 0 <= i < |parts| ==> GoodPart(u, parts[i]))
    && Reads(u, text, CreateTokens(name, parts))
  }

  lemma AcceptedCreate(u: Runes, text: string) returns (name: string, parts: seq<Part>)
    requires Proper(u) && ParseCreateTable(u, Start(u, text)).Some?
    ensures SpellsCreate(u, text, name, parts)
  {
    hide Next, ConsumeAll, Reads, Past, Nameable, ParseColumns, GoodPart, PartsTokens;
    var head, inner := [Word("CREATE"), Word("TABLE")], [ANY_NAME, Mark("(")];
    var first := ConsumedReads(u, text, head);
    assert first == head;
    var text2 := Past(u, text, 2);
    var second := ConsumedReads(u, text2, inner);
    name := second[0].value;
    assert second == [Name(name), Mark("(")];
    NameThenMark(u, text2, second[0], second[1]);
    parts := ColumnsSpelt(u, Past(u, text2, 2), [], "");
    var more := PartsTokens(parts) + [Mark(")")];
    ReadsConcat(u, text2, second, more);
    ReadsConcat(u, text, first, second + more);
    assert CreateTokens(name, parts) == first + (second + more);
  }

  /** CREATE TABLE makes a table of a text if and only if the text starts with a well-formed
      statement that declares just this table. */
  lemma CreateAcceptsIff(u: Runes, text: string, made: CreateTable)
    requires Proper(u)
    ensures ParseCreateTable(u, Start(u, text)) == Some(made) <==>
      exists name, parts :: (SpellsCreate(u, text, name, parts) && Declares(Some(made), name, ColumnsOf(parts), KeyOf(parts, "")))
  {
    hide ParseCreateTable, Start, Reads, Nameable, GoodPart, ColumnsOf, KeyOf, CreateTokens;
    if ParseCreateTable(u, Start(u, text)) == Some(made) {
      var name, parts := AcceptedCreate(u, text);
      CreateReads(u, text, name, parts);
      assert SpellsCreate(u, text, name, parts) && Declares(Some(made), name, ColumnsOf(parts), KeyOf(parts, ""));
    }
    if name, parts :| SpellsCreate(u, text, name, parts) && Declares(Some(made), name, ColumnsOf(parts), KeyOf(parts, "")) {
      CreateReads(u, text, name, parts);
      DeclaredOnce(ParseCreateTable(u, Start(u, text)), made, name, ColumnsOf(parts), KeyOf(parts, ""));
    }
  }

  lemma DeclaredOnce(a: Option<CreateTable>, made: CreateTable, name: string, columns: seq<ColumnSpec>, pk: string)
    requires Declares(a, name, columns, pk) && Declares(Some(made), name, columns, pk)
    ensures a == Some(made)
  {
  }

  // ----- INSERT INTO -----

  /** A value list that ends spells its values. */
  lemma {:induction false} ValuesSpelt(u: Runes, text: string, values: seq<string>) returns (items: seq<Item>)
    requires Proper(u) && ParseValues(u, Start(u, text), values).Done?
    ensures forall i :: 0 <= i < |items| ==> Nameable(u, items[i].value)
    ensures Reads(u, text, ItemsTokens(items) + [Mark(")")])
    decreases Start(u, text).Size()
  {
    hide Next, Reads, Commas, Nameable;
    NextIsSpellable(u, text);
    if Start(u, text).current.value == ")" {
      items := [];
      ReadsNone(u, Next(u, text).rest);
      ReadsOne(u, text, Mark(")"), []);
      assert ItemsTokens(items) + [Mark(")")] == [Mark(")")] + [];
    } else {
      CommaSkipped(u, text);
      var text1 := PastComma(u, text);
      NextIsSpellable(u, text1);
      var l := Next(u, text1);
      var more := ValuesSpelt(u, l.rest, values + [l.token.value]);
      var tail := ItemsTokens(more) + [Mark(")")];
      ReadsOne(u, text1, l.token, tail);
      var comma := CommaSpelt(u, text, [l.token] + tail);
      items := [Item(comma, l.token.value)] + more;
      ItemsTokensCons(Item(comma, l.token.value), more, [Mark(")")]);
    }
  }

  ghost predicate SpellsInsert(u: Runes, text: string, name: string, items: seq<Item>) {
    && Nameable(u, name) && (forall i :: 0 <= i < |items| ==> Nameable(u, items[i].value))
    && Reads(u, text, InsertTokens(name, items))
  }

  lemma AcceptedInsert(u: Runes, text: string) returns (name: string, items: seq<Item>)
    requires Proper(u) && ParseInsertIntoTable(u, Start(u, text)).Done?
    ensures SpellsInsert(u, text, name, items)
  {
    hide Next, ConsumeAll, Reads, Past, Nameable, ParseValues, ItemsTokens;
    var head, inner := [Word("INSERT"), Word("INTO")], [ANY_NAME, Word("VALUES"), Mark("(")];
    var first := ConsumedReads(u, text, head);
    assert first == head;
    var text2 := Past(u, text, 2);
    var second := ConsumedReads(u, text2, inner);
    name := second[0].value;
    assert second == [Name(name), Word("VALUES"), Mark("(")];
    assert second == [second[0], second[1]] + [second[2]];
    ReadsConcat(u, text2, [second[0], second[1]], [second[2]]);
    NameThenMark(u, text2, second[0], second[1]);
    items := ValuesSpelt(u, Past(u, text2, 3), []);
    var more := ItemsTokens(items) + [Mark(")")];
    ReadsConcat(u, text2, second, more);
    ReadsConcat(u, text, first, second + more);
    assert InsertTokens(name, items) == first + (second + more);
  }

  /** INSERT INTO makes a row of a text if and only if the text starts with a well-formed
      statement of just this table and these values. */
  lemma InsertAcceptsIff(u: Runes, text: string, made: InsertIntoTable)
    requires Proper(u)
    ensures ParseInsertIntoTable(u, Start(u, text)) == Done(made) <==>
      exists name, items :: (SpellsInsert(u, text, name, items) && made == InsertIntoTable(name, ItemValues(items)))
  {
    hide ParseInsertIntoTable, Start, Reads, Nameable, InsertTokens, ItemValues;
    if ParseInsertIntoTable(u, Start(u, text)) == Done(made) {
      var name, items := AcceptedInsert(u, text);
      InsertReads(u, text, name, items);
      assert SpellsInsert(u, text, name, items) && made == InsertIntoTable(name, ItemValues(items));
    }
    if name, items :| SpellsInsert(u, text, name, items) && made == InsertIntoTable(name, ItemValues(items)) {
      InsertReads(u, text, name, items);
    }
  }

  // ----- SELECT -----

  /** A column list that gets stuck is refused. */
  lemma {:induction false} StuckSelected(u: Runes, text: string, columns: seq<string>)
    requires |columns| <= COLUMNS_LIMIT && Next(u, text).token == ANY_NAME
    ensures ParseSelected(u, Start(u, text), columns).None?
    decreases COLUMNS_LIMIT - |columns|
  {
    hide Next;
    EmptyNameRepeats(u, text);
    if |columns| < COLUMNS_LIMIT {
      StuckSelected(u, Next(u, text).rest, columns + [""]);
    }
  }

  /** One turn of the column loop. */
  lemma WantedTurn(u: Runes, text: string, columns: seq<string>) returns (column: string, rest: string)
    requires Proper(u) && |columns| <= COLUMNS_LIMIT
    requires ParseSelected(u, Start(u, text), columns).Some? && Start(u, text).current.value != "FROM"
    ensures |columns| < COLUMNS_LIMIT && Next(u, PastComma(u, text)) == Lexed(WantedToken(column), rest)
    ensures column == "*" || Nameable(u, column)
    ensures ParseSelected(u, Start(u, text), columns) == ParseSelected(u, Start(u, rest), columns + [column])
  {
    hide Next, Nameable;
    CommaSkipped(u, text);
    var text1 := PastComma(u, text);
    NextIsSpellable(u, text1);
    NextIsSpellable(u, text);
    column, rest := Next(u, text1).token.value, Next(u, text1).rest;
    if column == "" {
      EmptyNameRepeats(u, text1);
      StuckSelected(u, rest, columns + [column]);
    }
  }

  lemma {:induction false} WantedSpelt(u: Runes, text: string, columns: seq<string>) returns (wanted: seq<Wanted>)
    requires Proper(u) && |columns| <= COLUMNS_LIMIT && ParseSelected(u, Start(u, text), columns).Some?
    ensures forall i :: 0 <= i < |wanted| ==> GoodWanted(u, wanted[i])
    ensures Reads(u, text, WantedTokens(wanted))
    ensures ParseSelected(u, Start(u, text), columns).value.st == Start(u, Past(u, text, |WantedTokens(wanted)|))
    decreases COLUMNS_LIMIT - |columns|
  {
    hide Next, Nameable, ParseSelected, Commas, WantedToken, Past, Reads;
    if Start(u, text).current.value == "FROM" {
      wanted := [];
      ReadsNone(u, text);
      SelectedNone(u, text, columns);
    } else {
      var column, rest := WantedTurn(u, text, columns);
      var more := WantedSpelt(u, rest, columns + [column]);
      ReadsOne(u, PastComma(u, text), WantedToken(column), WantedTokens(more));
      var comma := CommaSpelt(u, text, [WantedToken(column)] + WantedTokens(more));
      wanted := [Wanted(comma, column)] + more;
      assert wanted[1..] == more;
      PastConcat(u, text, |Commas(comma)|, 1 + |WantedTokens(more)|);
      PastConcat(u, PastComma(u, text), 1, |WantedTokens(more)|);
      PastOne(u, PastComma(u, text));
    }
  }

  lemma SelectedNone(u: Runes, text: string, columns: seq<string>)
    requires |columns| <= COLUMNS_LIMIT && Start(u, text).current.value == "FROM"
    ensures ParseSelected(u, Start(u, text), columns).value.st == Start(u, Past(u, text, |WantedTokens([])|))
  {
  }

  lemma ConditionSpelt(u: Runes, text: string) returns (c: QueryCondition, rest: string)
    requires Proper(u) && ParseCondition(u, Start(u, text)).Some?
    ensures ParseCondition(u, Start(u, text)) == Some(Conditions([c], Start(u, rest)))
    ensures Reads(u, text, ConditionTokens(c)) && rest == Past(u, text, |ConditionTokens(c)|)
    ensures Next(u, rest).token != ANY_NAME ==> GoodCondition(u, c)
  {
    hide Next, Nameable, Spellable;
    var l := Next(u, text);
    var m := Next(u, l.rest);
    var n := Next(u, m.rest);
    c, rest := QueryCondition(l.token.value, m.token.value, n.token.value), n.rest;
    ReadsNone(u, n.rest);
    ReadsOne(u, m.rest, n.token, []);
    ReadsOne(u, l.rest, m.token, [n.token]);
    ReadsOne(u, text, l.token, [m.token] + [n.token]);
    assert ConditionTokens(c) == [l.token] + ([m.token] + [n.token]);
    PastConcat(u, text, 1, 2);
    PastOne(u, text);
    PastTwo(u, l.rest);
    NextIsSpellable(u, text);
    NextIsSpellable(u, l.rest);
    NextIsSpellable(u, m.rest);
    if l.token.value == "" {
      EmptyNameRepeats(u, text);
    }
    if n.token.value == "" {
      EmptyNameRepeats(u, m.rest);
    }
  }

  lemma StuckConditions(u: Runes, text: string, conditions: seq<QueryCondition>)
    requires 0 < |conditions| <= CONDITIONS_LIMIT && Next(u, text).token == ANY_NAME
    ensures ParseConditions(u, Start(u, text), conditions).None?
  {
    hide Next;
  }

  /** Conditions that are read to their end are spelt out, and there is a semicolon behind them. */
  lemma {:induction false} ConditionsSpelt(u: Runes, text: string, conditions: seq<QueryCondition>) returns (asked: seq<QueryCondition>)
    requires Proper(u) && |conditions| <= CONDITIONS_LIMIT && ParseConditions(u, Start(u, text), conditions).Some?
    ensures forall i :: 0 <= i < |asked| ==> GoodCondition(u, asked[i])
    ensures Reads(u, text, ConditionsTokens(asked, conditions == []) + [Mark(";")])
    ensures ParseConditions(u, Start(u, text), conditions).value.conditions == conditions + asked
    decreases CONDITIONS_LIMIT - |conditions|
  {
    hide Next, ParseCondition, Reads, GoodCondition, ConditionTokens;
    if Start(u, text).current.value == ";" {
      NextIsSpellable(u, text);
      asked := [];
      ReadsNone(u, Next(u, text).rest);
      ReadsOne(u, text, Mark(";"), []);
      assert ConditionsTokens(asked, conditions == []) + [Mark(";")] == [Mark(";")] + [];
    } else {
      var text1 := if conditions == [] then text else Next(u, text).rest;
      var c, rest := ConditionSpelt(u, text1);
      if Next(u, rest).token == ANY_NAME {
        StuckConditions(u, rest, conditions + [c]);
      }
      assert conditions + [c] != [];
      var more := ConditionsSpelt(u, rest, conditions + [c]);
      asked := [c] + more;
      var tail := ConditionsTokens(more, false) + [Mark(";")];
      ReadsConcat(u, text1, ConditionTokens(c), tail);
      if conditions != [] {
        ReadsOne(u, text, Word("AND"), ConditionTokens(c) + tail);
      }
      ConditionsTokensCons(c, more, conditions == []);
      assert conditions + [c] + more == conditions + asked;
    }
  }

  lemma ConditionsTokensCons(c: QueryCondition, more: seq<QueryCondition>, first: bool)
    ensures var tail := ConditionsTokens(more, false) + [Mark(";")];
      ConditionsTokens([c] + more, first) + [Mark(";")] ==
        if first then ConditionTokens(c) + tail else [Word("AND")] + (ConditionTokens(c) + tail)
  {
    hide ConditionTokens;
    assert ([c] + more)[1..] == more;
  }

  /** Everything behind the FROM and the name. */
  lemma WhereSpelt(u: Runes, text: string) returns (asked: seq<QueryCondition>)
    requires Proper(u) && ParseWhere(u, Start(u, text)).Some?
    requires Consume(u, ParseWhere(u, Start(u, text)).value.st, Mark(";")).Some?
    ensures forall i :: 0 <= i < |asked| ==> GoodCondition(u, asked[i])
    ensures Reads(u, text, WhereTokens(asked) + [Mark(";")])
  {
    hide Next, ParseConditions, GoodCondition, ConditionsTokens;
    asked := [];
    if Start(u, text).current.value != "WHERE" {
      ReadsNone(u, Next(u, text).rest);
      ReadsOne(u, text, Mark(";"), []);
      assert WhereTokens(asked) + [Mark(";")] == [Mark(";")] + [];
    } else {
      var rest := Next(u, text).rest;
      asked := ConditionsSpelt(u, rest, []);
      assert [] + asked == asked;
      var tail := ConditionsTokens(asked, true) + [Mark(";")];
      ReadsOne(u, text, Word("WHERE"), tail);
      assert WhereTokens(asked) + [Mark(";")] == [Word("WHERE")] + tail;
    }
  }

  ghost predicate SpellsSelect(u: Runes, text: string, name: string, wanted: seq<Wanted>, asked: seq<QueryCondition>) {
    && Nameable(u, name)
    && (forall i :: 0 <= i < |wanted| ==> GoodWanted(u, wanted[i]))
    && (forall i :: 0 <= i < |asked| ==> GoodCondition(u, asked[i]))
    && Reads(u, text, SelectTokens(name, wanted, asked))
  }

  lemma FromSpelt(u: Runes, text: string, columns: seq<string>) returns (name: string, asked: seq<QueryCondition>)
    requires Proper(u) && ParseFrom(u, Start(u, text), columns).Some?
    ensures Nameable(u, name) && forall i :: 0 <= i < |asked| ==> GoodCondition(u, asked[i])
    ensures Reads(u, text, [Word("FROM")] + ([Name(name)] + (WhereTokens(asked) + [Mark(";")])))
  {
    hide Next, GoodCondition, WhereTokens, ParseWhere, Nameable;
    var rest := Next(u, text).rest;
    name := Next(u, rest).token.value;
    NextIsSpellable(u, rest);
    if name == "" {
      EmptyNameRepeats(u, rest);
      NoWhere(u, Next(u, rest).rest);
    }
    asked := WhereSpelt(u, Next(u, rest).rest);
    var tail := WhereTokens(asked) + [Mark(";")];
    ReadsOne(u, rest, Name(name), tail);
    ReadsOne(u, text, Word("FROM"), [Name(name)] + tail);
  }

  lemma NoWhere(u: Runes, text: string)
    requires Next(u, text).token == ANY_NAME
    ensures ParseWhere(u, Start(u, text)) == Some(Conditions([], Start(u, text)))
    ensures Consume(u, Start(u, text), Mark(";")).None?
  {
    hide Next;
  }

  lemma AcceptedSelect(u: Runes, text: string) returns (name: string, wanted: seq<Wanted>, asked: seq<QueryCondition>)
    requires Proper(u) && ParseSelectFromTable(u, Start(u, text)).Some?
    ensures SpellsSelect(u, text, name, wanted, asked)
  {
    hide Next, GoodCondition, GoodWanted, WhereTokens, WantedTokens, ParseSelected, ParseFrom, Nameable, Past;
    var rest := Next(u, text).rest;
    wanted := WantedSpelt(u, rest, []);
    var columns := ParseSelected(u, Start(u, rest), []).value.columns;
    var text2 := Past(u, rest, |WantedTokens(wanted)|);
    name, asked := FromSpelt(u, text2, columns);
    var tail := [Word("FROM")] + ([Name(name)] + (WhereTokens(asked) + [Mark(";")]));
    ReadsConcat(u, rest, WantedTokens(wanted), tail);
    ReadsOne(u, text, Word("SELECT"), WantedTokens(wanted) + tail);
  }

  /** SELECT makes a query of a text if and only if the text starts with a well-formed statement
      of just this table, these columns and these conditions, with one to ten columns and at most
      eleven conditions. */
  lemma SelectAcceptsIff(u: Runes, text: string, made: SelectFromTable)
    requires Proper(u)
    ensures ParseSelectFromTable(u, Start(u, text)) == Some(made) <==>
      exists wanted :: (SpellsSelect(u, text, made.name, wanted, made.conditions)
        && made.columns == WantedColumns(wanted) && 1 <= |wanted| <= 10 && |made.conditions| <= 11)
  {
    hide ParseSelectFromTable, Start, Reads, Nameable, SelectTokens, WantedColumns, GoodWanted, GoodCondition;
    if ParseSelectFromTable(u, Start(u, text)) == Some(made) {
      var name, wanted, asked := AcceptedSelect(u, text);
      SelectReads(u, text, name, wanted, asked);
      assert SpellsSelect(u, text, made.name, wanted, made.conditions);
    }
    if wanted :| (SpellsSelect(u, text, made.name, wanted, made.conditions)
        && made.columns == WantedColumns(wanted) && 1 <= |wanted| <= 10 && |made.conditions| <= 11) {
      SelectReads(u, text, made.name, wanted, made.conditions);
    }
  }
}
