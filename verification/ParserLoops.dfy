/** The parser as an object that moves along its tokeniser; each method computes the function
    the parsing theorems are about (sql_parser/parser.go). */
module ParserLoops {
  import opened ByteStrings
  import opened Tokeniser
  import opened Parser

  class StatementParser {
    const u: Runes
    const tokeniser: Tokens
    var currentToken: Token

    ghost predicate Valid()
      reads this, tokeniser
    {
      tokeniser.u == u && tokeniser.pos <= |tokeniser.input|
    }

    ghost function Now(): State
      reads this, tokeniser
      requires Valid()
    {
      State(currentToken, tokeniser.Left())
    }

    constructor (u: Runes, input: string)
      ensures Valid() && fresh(tokeniser) && Now() == Start(u, input) && this.u == u
    {
      this.u := u;
      var t := new Tokens(u, input);
      assert t.Left() == input;
      var token := t.NextToken();
      tokeniser := t;
      currentToken := token;
    }

    /** Either the expected token is consumed, or nothing changes. */
    method Consume(expected: Token) returns (ok: bool)
      requires Valid()
      modifies this`currentToken, tokeniser`pos
      ensures Valid()
      ensures var r := Parser.Consume(u, old(Now()), expected);
        ok == r.Some? && Now() == if ok then r.value else old(Now())
    {
      hide Next, Fits;
      if !Fits(currentToken, expected) {
        return false;
      }
      currentToken := tokeniser.NextToken();
      ok := true;
    }

    /** Several tokens in a row; the first that does not fit ends it. */
    method ConsumeAll(expected: seq<Token>) returns (ok: bool)
      requires Valid()
      modifies this`currentToken, tokeniser`pos
      ensures Valid()
      ensures var r := Parser.ConsumeAll(u, old(Now()), expected);
        ok == r.Some? && (ok ==> Now() == r.value)
    {
      hide Parser.Consume, Start, Next, Fits;
      for i := 0 to |expected|
        invariant Valid()
        invariant Parser.ConsumeAll(u, old(Now()), expected) == Parser.ConsumeAll(u, Now(), expected[i..])
      {
        assert expected[i..][1..] == expected[i + 1..];
        ok := Consume(expected[i]);
        if !ok {
          return;
        }
      }
      ok := true;
    }

    method SkipComma()
      requires Valid()
      modifies this`currentToken, tokeniser`pos
      ensures Valid() && Now() == Parser.SkipComma(u, old(Now()))
    {
      hide Parser.Consume, Start, Next, Fits;
      if currentToken.value == "," {
        var _ := Consume(Mark(","));
      }
    }

    method ParsePrimaryKeyColumn() returns (r: Option<string>)
      requires Valid()
      modifies this`currentToken, tokeniser`pos
      ensures Valid()
      ensures var key := ParseKey(u, old(Now()));
        r.Some? == key.Some? && (key.Some? ==> r.value == key.value.column && Now() == key.value.st)
    {
      hide Parser.ConsumeAll;
      var ok := ConsumeAll([Word("PRIMARY"), Word("KEY"), Mark("(")]);
      if !ok {
        return None;
      }
      var pkColumn := currentToken.value;
      ok := ConsumeAll([ANY_NAME, Mark(")")]);
      r := if ok then Some(pkColumn) else None;
    }

    method ParseColumnList() returns (ok: bool, columns: seq<ColumnSpec>, pk: string)
      requires Valid()
      modifies this`currentToken, tokeniser`pos
      ensures Valid()
      ensures var r := ParseColumns(u, old(Now()), [], "");
        ok == r.Some? && (ok ==> r.value == Columns(columns, pk, Now()))
    {
      hide Parser.Consume, Start, Next, Fits, ParseKey, Parser.SkipComma;
      columns, pk := [], "";
      while currentToken.value != ")"
        invariant Valid()
        invariant ParseColumns(u, old(Now()), [], "") == ParseColumns(u, Now(), columns, pk)
        decreases Now().Size()
      {
        SkipComma();
        if currentToken.value == "PRIMARY" {
          var key := ParsePrimaryKeyColumn();
          if key.None? {
            ok := false;
            return;
          }
          pk := key.value;
          continue;
        }
        var columnName := currentToken.value;
        ok := Consume(ANY_NAME);
        if !ok {
          return;
        }
        var columnType := currentToken.value;
        ok := Consume(ANY_NAME);
        if !ok {
          return;
        }
        var dataType := TypeOf(columnType);
        if dataType.None? {
          ok := false;
          return;
        }
        columns := columns + [ColumnSpec(columnName, dataType.value)];
      }
      ok := true;
    }

    method ParseCreateTable() returns (r: Option<CreateTable>)
      requires Valid()
      modifies this`currentToken, tokeniser`pos
      ensures Valid() && r == Parser.ParseCreateTable(u, old(Now()))
    {
      hide Parser.Consume, Start, Next, Fits, Parser.ConsumeAll, ParseColumns, LastNamed;
      var ok := ConsumeAll([Word("CREATE"), Word("TABLE")]);
      if !ok {
        return None;
      }
      var tableName := currentToken.value;
      ok := ConsumeAll([ANY_NAME, Mark("(")]);
      if !ok {
        return None;
      }
      var columns, pkColumn;
      ok, columns, pkColumn := ParseColumnList();
      if !ok || columns == [] {
        return None;
      }
      var pkColumnPosition := 0;
      if pkColumn != "" {
        pkColumnPosition := FindLast(columns, pkColumn);
        if pkColumnPosition == 0 {
          return None;
        }
      }
      ok := Consume(Mark(")"));
      r := if ok then Some(CreateTable(tableName, columns, pkColumnPosition)) else None;
    }

    method ParseValueList() returns (ok: bool, values: seq<string>)
      requires Valid() && ParseValues(u, Now(), []) != Forever
      modifies this`currentToken, tokeniser`pos
      ensures Valid()
      ensures var r := ParseValues(u, old(Now()), []);
        ok == r.Done? && (ok ==> r.value == Values(values, Now()))
    {
      hide Parser.Consume, Start, Next, Fits, Parser.SkipComma;
      values := [];
      while currentToken.value != ")"
        invariant Valid()
        invariant ParseValues(u, old(Now()), []) == ParseValues(u, Now(), values)
        decreases Now().Size()
      {
        SkipComma();
        var columnValue := currentToken.value;
        ok := Consume(ANY_NAME);
        if !ok {
          return;
        }
        values := values + [columnValue];
      }
      ok := true;
    }

    /** Only asked of texts on which it ends. */
    method ParseInsertIntoTable() returns (r: Option<InsertIntoTable>)
      requires Valid() && Parser.ParseInsertIntoTable(u, Now()) != Forever
      modifies this`currentToken, tokeniser`pos
      ensures Valid()
      ensures Parser.ParseInsertIntoTable(u, old(Now())) == if r.Some? then Done(r.value) else SyntaxError
    {
      hide Parser.Consume, Start, Next, Fits, Parser.ConsumeAll, ParseValues;
      var ok := ConsumeAll([Word("INSERT"), Word("INTO")]);
      if !ok {
        return None;
      }
      var tableName := currentToken.value;
      ok := ConsumeAll([ANY_NAME, Word("VALUES"), Mark("(")]);
      if !ok {
        return None;
      }
      var values;
      ok, values := ParseValueList();
      if !ok {
        return None;
      }
      ok := Consume(Mark(")"));
      r := if ok then Some(InsertIntoTable(tableName, values)) else None;
    }

    method ParseColumnsFromSelectQuery() returns (ok: bool, columns: seq<string>)
      requires Valid()
      modifies this`currentToken, tokeniser`pos
      ensures Valid()
      ensures var r := ParseSelected(u, old(Now()), []);
        ok == (r.Some? && r.value.columns != []) && (ok ==> r.value == Selected(columns, Now()))
    {
      hide Parser.Consume, Start, Next, Fits;
      columns := [];
      while currentToken.value != "FROM"
        invariant Valid() && |columns| <= COLUMNS_LIMIT
        invariant ParseSelected(u, old(Now()), []) == ParseSelected(u, Now(), columns)
        decreases COLUMNS_LIMIT - |columns|
      {
        if currentToken.value == "," {
          ok := Consume(Mark(","));
          if !ok {
            return;
          }
        }
        if |columns| == COLUMNS_LIMIT {
          ok := false;
          return;
        }
        var columnName := currentToken.value;
        ok := Consume(if columnName == "*" then Mark("*") else ANY_NAME);
        if !ok {
          return;
        }
        columns := columns + [columnName];
      }
      ok := columns != [];
    }

    method ParseQueryCondition() returns (r: Option<QueryCondition>)
      requires Valid()
      modifies this`currentToken, tokeniser`pos
      ensures Valid()
      ensures var c := ParseCondition(u, old(Now()));
        r.Some? == c.Some? && (c.Some? ==> c.value == Conditions([r.value], Now()))
    {
      hide Parser.Consume, Start, Next, Fits;
      var columnName := currentToken.value;
      var ok := Consume(ANY_NAME);
      if !ok {
        return None;
      }
      var queryType := currentToken.value;
      ok := Consume(Token(Comparison, ""));
      if !ok {
        return None;
      }
      var value := currentToken.value;
      ok := Consume(ANY_NAME);
      r := if ok then Some(QueryCondition(columnName, queryType, value)) else None;
    }

    method ParseQueryConditionsFromSelectQuery() returns (ok: bool, conditions: seq<QueryCondition>)
      requires Valid() && currentToken.value == "WHERE"
      modifies this`currentToken, tokeniser`pos
      ensures Valid()
      ensures var r := ParseWhere(u, old(Now()));
        ok == r.Some? && (ok ==> r.value == Conditions(conditions, Now()))
    {
      hide Parser.Consume, Start, Next, Fits, ParseCondition;
      conditions := [];
      ok := Consume(Word("WHERE"));
      if !ok {
        return;
      }
      ghost var first := Now();
      while currentToken.value != ";"
        invariant Valid() && |conditions| <= CONDITIONS_LIMIT
        invariant ParseConditions(u, first, []) == ParseConditions(u, Now(), conditions)
        decreases CONDITIONS_LIMIT - |conditions|
      {
        if conditions != [] {
          ok := Consume(Word("AND"));
          if !ok {
            return;
          }
        }
        if |conditions| == CONDITIONS_LIMIT {
          ok := false;
          return;
        }
        var condition := ParseQueryCondition();
        if condition.None? {
          ok := false;
          return;
        }
        conditions := conditions + [condition.value];
      }
      ok := conditions != [];
    }

    method ParseOptionalWhere() returns (ok: bool, conditions: seq<QueryCondition>)
      requires Valid()
      modifies this`currentToken, tokeniser`pos
      ensures Valid()
      ensures var r := ParseWhere(u, old(Now()));
        ok == r.Some? && (ok ==> r.value == Conditions(conditions, Now()))
    {
      hide Parser.Consume, Start, Next, Fits, ParseConditions;
      if currentToken.value == "WHERE" {
        ok, conditions := ParseQueryConditionsFromSelectQuery();
      } else {
        ok, conditions := true, [];
      }
    }

    method ParseFrom(columns: seq<string>) returns (r: Option<SelectFromTable>)
      requires Valid()
      modifies this`currentToken, tokeniser`pos
      ensures Valid() && r == Parser.ParseFrom(u, old(Now()), columns)
    {
      hide Parser.Consume, Start, Next, Fits, ParseWhere;
      var ok := Consume(Word("FROM"));
      if !ok {
        return None;
      }
      var tableName := currentToken.value;
      ok := Consume(ANY_NAME);
      if !ok {
        return None;
      }
      var conditions;
      ok, conditions := ParseOptionalWhere();
      if !ok {
        return None;
      }
      ok := Consume(Mark(";"));
      r := if ok then Some(SelectFromTable(tableName, columns, conditions)) else None;
    }

    method ParseSelectFromTable() returns (r: Option<SelectFromTable>)
      requires Valid()
      modifies this`currentToken, tokeniser`pos
      ensures Valid() && r == Parser.ParseSelectFromTable(u, old(Now()))
    {
      hide Parser.Consume, Start, Next, Fits, ParseSelected, Parser.ParseFrom;
      var ok := Consume(Word("SELECT"));
      if !ok {
        return None;
      }
      var columns;
      ok, columns := ParseColumnsFromSelectQuery();
      if !ok {
        return None;
      }
      r := ParseFrom(columns);
    }
  }

  /** The loop over the columns: the last match wins, and none leaves zero. */
  method FindLast(columns: seq<ColumnSpec>, name: string) returns (p: nat)
    ensures p == LastNamed(columns, name)
  {
    p := 0;
    for i := 0 to |columns|
      invariant p == LastNamed(columns[..i], name)
    {
      assert columns[..i + 1][..i] == columns[..i];
      if columns[i].name == name {
        p := i;
      }
    }
    assert columns[..|columns|] == columns;
  }
}
