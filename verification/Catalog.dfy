/** What survives of a table's definition: its schema and its secondary indexes as bytes
    (db/create.go). */
module Catalog {
  import opened ByteStrings
  import opened TableReaders
  import opened Rows

  datatype SecondaryIndex = SecondaryIndex(name: Bytes, columns: seq<Bytes>)

  datatype Schema = Schema(pkPosition: nat, columns: seq<Column>)

  // ----- the schema -----

  function TypeByte(t: DataType): byte {
    match t
    case Int => 0
    case Str => 1
    case Bool => 2
    case Other(code) => code
  }

  function TypeOfByte(b: byte): DataType {
    if b == 0 then Int else if b == 1 then Str else if b == 2 then Bool else Other(b)
  }

  function EncodeColumn(c: Column): Bytes {
    [TypeByte(c.dataType)] + Framed(c.name)
  }

  function EncodeColumns(columns: seq<Column>): Bytes {
    if columns == [] then [] else EncodeColumn(columns[0]) + EncodeColumns(columns[1..])
  }

  function EncodeSchema(s: Schema): Bytes {
    U32(s.pkPosition) + EncodeColumns(s.columns)
  }

  /** The position of the primary key, then for each column a byte for its type, 0 for INT, 1 for
      STRING and 2 for BOOL, and its name behind the length. */
  ghost predicate ColumnAt(b: Bytes, c: Column, rest: Bytes) {
    var n := |c.name|;
    && |b| >= 5 + n && BigEndian(b[1..5], n) && b[5..5 + n] == c.name && b[5 + n..] == rest
    && AsInt(b[0]) == match c.dataType { case Int => 0 case Str => 1 case Bool => 2 case Other(code) => code }
  }

  lemma SchemaLayout(s: Schema)
    ensures var b := EncodeSchema(s);
      |b| >= 4 && BigEndian(b[..4], s.pkPosition) && b[4..] == EncodeColumns(s.columns)
    ensures s.columns != [] ==> ColumnAt(EncodeColumns(s.columns), s.columns[0], EncodeColumns(s.columns[1..]))
    ensures EncodeColumns([]) == []
  {
    hide U32;
    BigEndianIff(U32(s.pkPosition), s.pkPosition);
    if s.columns != [] {
      BigEndianIff(U32(|s.columns[0].name|), |s.columns[0].name|);
      var b := EncodeColumns(s.columns);
      assert b[1..5] == U32(|s.columns[0].name|);
    }
  }

  function DecodeColumns(buf: Bytes): Outcome<seq<Column>>
    decreases |buf|
  {
    if buf == [] then Ok([])
    else match Take(buf[1..])
      case None => Error
      case Some(t) =>
        match DecodeColumns(t.rest)
        case Ok(more) => Ok([Column(t.value, TypeOfByte(buf[0]))] + more)
        case other => other
  }

  function DecodeSchema(buf: Bytes): Outcome<Schema> {
    if |buf| < 4 then Error
    else match DecodeColumns(buf[4..])
      case Ok(columns) => Ok(Schema(ReadU32(buf[..4]), columns))
      case Error => Error
      case Panic => Panic
  }

  predicate ColumnFits(c: Column) {
    |c.name| < U32_LIMIT && (c.dataType.Other? ==> c.dataType.code > 2)
  }

  lemma {:induction false} ColumnsBack(columns: seq<Column>)
    requires forall i :: 0 <= i < |columns| ==> ColumnFits(columns[i])
    ensures DecodeColumns(EncodeColumns(columns)) == Ok(columns)
  {
    hide Take, Framed;
    if columns != [] {
      var c, rest := columns[0], EncodeColumns(columns[1..]);
      var buf := EncodeColumns(columns);
      assert buf[1..] == Framed(c.name) + rest;
      TakeFramed(c.name, rest);
      ColumnsBack(columns[1..]);
      assert [c] + columns[1..] == columns;
    }
  }

  /** Any column list survives a restart, repeated names included. */
  lemma SchemaRoundTrip(s: Schema)
    requires s.pkPosition < U32_LIMIT && forall i :: 0 <= i < |s.columns| ==> ColumnFits(s.columns[i])
    ensures DecodeSchema(EncodeSchema(s)) == Ok(s)
  {
    hide U32, ReadU32, EncodeColumns, DecodeColumns;
    U32RoundTrip(s.pkPosition);
    assert EncodeSchema(s)[..4] == U32(s.pkPosition) && EncodeSchema(s)[4..] == EncodeColumns(s.columns);
    ColumnsBack(s.columns);
  }

  // ----- the secondary indexes -----

  /** The position stored for an index column: the last table column of that name. */
  function LastPosition(columns: seq<Column>, name: Bytes): (p: int)
    ensures -1 <= p < |columns|
    ensures p >= 0 ==> columns[p].name == name
    ensures p == -1 ==> forall i :: 0 <= i < |columns| ==> columns[i].name != name
  {
    if columns == [] then -1
    else
      var n := |columns| - 1;
      if columns[n].name == name then n else LastPosition(columns[..n], name)
  }

  function EncodePositions(columns: seq<Column>, names: seq<Bytes>): Option<Bytes> {
    if names == [] then Some([])
    else
      var p := LastPosition(columns, names[0]);
      if p == -1 then None
      else match EncodePositions(columns, names[1..])
        case None => None
        case Some(rest) => Some(U32(p) + rest)
  }

  function EncodeIndex(columns: seq<Column>, i: SecondaryIndex): Option<Bytes> {
    match EncodePositions(columns, i.columns)
    case None => None
    case Some(positions) => Some(Framed(i.name) + (U32(|i.columns|) + positions))
  }

  function EncodeIndexes(columns: seq<Column>, indexes: seq<SecondaryIndex>): Option<Bytes> {
    if indexes == [] then Some([])
    else match EncodeIndex(columns, indexes[0])
      case None => None
      case Some(first) =>
        match EncodeIndexes(columns, indexes[1..])
        case None => None
        case Some(rest) => Some(first + rest)
  }

  function EncodeCatalog(columns: seq<Column>, indexes: seq<SecondaryIndex>): Option<Bytes> {
    match EncodeIndexes(columns, indexes)
    case None => None
    case Some(body) => Some(U32(|indexes|) + body)
  }

  datatype Names = Names(names: seq<Bytes>, rest: Bytes)

  function DecodePositions(columns: seq<Column>, buf: Bytes, n: nat): Outcome<Names> {
    if n == 0 then Ok(Names([], buf))
    else if |buf| < 4 then Error
    else
      var p := ReadU32(buf[..4]);
      if p >= |columns| then Error
      else match DecodePositions(columns, buf[4..], n - 1)
        case Ok(more) => Ok(Names([columns[p].name] + more.names, more.rest))
        case other => other
  }

  function DecodeIndexes(columns: seq<Column>, buf: Bytes, n: nat): Outcome<seq<SecondaryIndex>>
    decreases n
  {
    if n == 0 then Ok([])
    else match Take(buf)
      case None => Error
      case Some(t) =>
        if |t.rest| < 4 then Error
        else match DecodePositions(columns, t.rest[4..], ReadU32(t.rest[..4]))
          case Ok(cols) =>
            (match DecodeIndexes(columns, cols.rest, n - 1)
             case Ok(more) => Ok([SecondaryIndex(t.value, cols.names)] + more)
             case other => other)
          case Error => Error
          case Panic => Panic
  }

  function DecodeCatalog(columns: seq<Column>, buf: Bytes): Outcome<seq<SecondaryIndex>> {
    if |buf| < 4 then Error else DecodeIndexes(columns, buf[4..], ReadU32(buf[..4]))
  }

  predicate KnownColumns(columns: seq<Column>, names: seq<Bytes>) {
    forall i :: 0 <= i < |names| ==> exists j :: 0 <= j < |columns| && columns[j].name == names[i]
  }

  lemma {:induction false} PositionsBack(columns: seq<Column>, names: seq<Bytes>, rest: Bytes)
    requires |columns| < U32_LIMIT && EncodePositions(columns, names).Some?
    ensures DecodePositions(columns, EncodePositions(columns, names).value + rest, |names|) == Ok(Names(names, rest))
  {
    hide U32, ReadU32, LastPosition;
    if names == [] {
      assert [] + rest == rest;
    } else {
      var p := LastPosition(columns, names[0]);
      var more := EncodePositions(columns, names[1..]).value;
      var buf := EncodePositions(columns, names).value + rest;
      U32RoundTrip(p);
      assert buf[..4] == U32(p) && buf[4..] == more + rest;
      PositionsBack(columns, names[1..], rest);
      assert [names[0]] + names[1..] == names;
    }
  }

  lemma IndexBack(columns: seq<Column>, index: SecondaryIndex, rest: Bytes)
    requires |columns| < U32_LIMIT && |index.name| < U32_LIMIT && |index.columns| < U32_LIMIT
    requires EncodeIndex(columns, index).Some?
    ensures var buf := EncodeIndex(columns, index).value + rest;
      && Take(buf).Some? && Take(buf).value.value == index.name
      && var more := Take(buf).value.rest;
      |more| >= 4 && DecodePositions(columns, more[4..], ReadU32(more[..4])) == Ok(Names(index.columns, rest))
  {
    hide U32, ReadU32, Take, EncodePositions, DecodePositions, Framed;
    var positions := EncodePositions(columns, index.columns).value;
    var more := U32(|index.columns|) + positions + rest;
    assert EncodeIndex(columns, index).value + rest == Framed(index.name) + more;
    TakeFramed(index.name, more);
    U32RoundTrip(|index.columns|);
    assert more[..4] == U32(|index.columns|) && more[4..] == positions + rest;
    PositionsBack(columns, index.columns, rest);
  }

  predicate IndexFitsCatalog(i: SecondaryIndex) {
    |i.name| < U32_LIMIT && |i.columns| < U32_LIMIT
  }

  lemma {:induction false} IndexesBack(columns: seq<Column>, indexes: seq<SecondaryIndex>)
    requires |columns| < U32_LIMIT && EncodeIndexes(columns, indexes).Some?
    requires forall i :: 0 <= i < |indexes| ==> IndexFitsCatalog(indexes[i])
    ensures DecodeIndexes(columns, EncodeIndexes(columns, indexes).value, |indexes|) == Ok(indexes)
  {
    hide ReadU32, Take, EncodeIndex, DecodePositions;
    if indexes != [] {
      IndexBack(columns, indexes[0], EncodeIndexes(columns, indexes[1..]).value);
      IndexesBack(columns, indexes[1..]);
      assert [indexes[0]] + indexes[1..] == indexes;
    }
  }

  /** Any indexes over the table's columns survive a restart with their names and columns in
      order, even where two table columns share a name; an index over an unknown column is
      refused when it is written. */
  lemma CatalogRoundTrip(columns: seq<Column>, indexes: seq<SecondaryIndex>)
    requires |columns| < U32_LIMIT && |indexes| < U32_LIMIT
    requires forall i :: 0 <= i < |indexes| ==> IndexFitsCatalog(indexes[i])
    ensures EncodeCatalog(columns, indexes).Some? <==>
      forall i :: 0 <= i < |indexes| ==> KnownColumns(columns, indexes[i].columns)
    ensures EncodeCatalog(columns, indexes).Some? ==>
      DecodeCatalog(columns, EncodeCatalog(columns, indexes).value) == Ok(indexes)
  {
    hide U32, ReadU32, EncodeIndexes, DecodeIndexes, KnownColumns;
    EncodedWhenKnown(columns, indexes);
    if EncodeCatalog(columns, indexes).Some? {
      var buf := EncodeCatalog(columns, indexes).value;
      U32RoundTrip(|indexes|);
      assert buf[..4] == U32(|indexes|) && buf[4..] == EncodeIndexes(columns, indexes).value;
      IndexesBack(columns, indexes);
    }
  }

  lemma {:induction false} PositionsWhenKnown(columns: seq<Column>, names: seq<Bytes>)
    ensures EncodePositions(columns, names).Some? <==> KnownColumns(columns, names)
  {
    hide LastPosition;
    if names != [] {
      PositionsWhenKnown(columns, names[1..]);
      assert forall i :: 1 <= i < |names| ==> names[i] == names[1..][i - 1];
      if LastPosition(columns, names[0]) >= 0 {
        assert columns[LastPosition(columns, names[0])].name == names[0];
        if KnownColumns(columns, names[1..]) {
          forall i | 0 <= i < |names|
            ensures exists j :: 0 <= j < |columns| && columns[j].name == names[i]
          {
            if i > 0 {
              assert names[1..][i - 1] == names[i];
            }
          }
        }
      }
    }
  }

  lemma {:induction false} EncodedWhenKnown(columns: seq<Column>, indexes: seq<SecondaryIndex>)
    ensures EncodeIndexes(columns, indexes).Some? <==>
      forall i :: 0 <= i < |indexes| ==> KnownColumns(columns, indexes[i].columns)
  {
    hide KnownColumns, EncodePositions;
    if indexes != [] {
      PositionsWhenKnown(columns, indexes[0].columns);
      EncodedWhenKnown(columns, indexes[1..]);
      assert forall i :: 1 <= i < |indexes| ==> indexes[i] == indexes[1..][i - 1];
      assert forall i :: 0 <= i < |indexes[1..]| ==> indexes[1..][i] == indexes[i + 1];
    }
  }

  // ----- the loops -----

  function PrependColumns(done: seq<Column>, rest: Outcome<seq<Column>>): Outcome<seq<Column>> {
    match rest
    case Ok(more) => Ok(done + more)
    case other => other
  }

  lemma PrependColumn(done: seq<Column>, c: Column, rest: Outcome<seq<Column>>)
    ensures PrependColumns([], rest) == rest
    ensures PrependColumns(done + [c], rest) == PrependColumns(done, PrependColumns([c], rest))
  {
    if rest.Ok? {
      assert [] + rest.value == rest.value && (done + [c]) + rest.value == done + ([c] + rest.value);
    }
  }

  method DeserialiseCreateTable(buf: Bytes) returns (r: Outcome<Schema>)
    ensures r == DecodeSchema(buf)
  {
    hide ReadU32, Take;
    if |buf| < 4 {
      return Error;
    }
    var i, columns := 4, [];
    PrependColumn([], Column([], Int), DecodeColumns(buf[4..]));
    while i < |buf|
      invariant i <= |buf|
      invariant DecodeColumns(buf[4..]) == PrependColumns(columns, DecodeColumns(buf[i..]))
      decreases |buf| - i
    {
      var dataType := TypeOfByte(buf[i]);
      assert buf[i..][1..] == buf[i + 1..];
      var name := ExtractValue(buf, i + 1);
      if name.None? {
        return Error;
      }
      PrependColumn(columns, Column(name.value, dataType), DecodeColumns(buf[i + 5 + |name.value|..]));
      columns := columns + [Column(name.value, dataType)];
      i := i + 5 + |name.value|;
    }
    assert buf[i..] == [] && columns + [] == columns;
    r := Ok(Schema(ReadU32(buf[..4]), columns));
  }
}
