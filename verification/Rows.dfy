/** Rows as bytes: the column values of an INSERT serialised under the schema and read back by
    a SELECT (db/db.go, db/select.go). */
module Rows {
  import opened ByteStrings
  import opened TableReaders

  datatype DataType = Int | Str | Bool | Other(code: byte)

  datatype Column = Column(name: Bytes, dataType: DataType)

  type Row = seq<Bytes>

  // ----- numbers as text -----

  const DIGIT_0: int := 48
  const PLUS: byte := 43
  const MINUS: byte := 45
  const INT64_LIMIT: int := 0x8000_0000_0000_0000

  /** `strconv.FormatUint(n, 10)`. */
  function Decimal(n: nat): (s: Bytes)
    ensures s != []
  {
    if n < 10 then [DIGIT_0 + n] else Decimal(n / 10) + [DIGIT_0 + n % 10]
  }

  /** `strconv.FormatUint(n, 2)`. */
  function Binary(n: nat): Bytes {
    if n < 2 then [DIGIT_0 + n] else Binary(n / 2) + [DIGIT_0 + n % 2]
  }

  predicate IsDigit(b: byte) {
    DIGIT_0 <= b < DIGIT_0 + 10
  }

  function DigitValue(b: byte): nat
    requires IsDigit(b)
  {
    var d: int := b;
    d - DIGIT_0
  }

  function ParseDigits(s: Bytes): Option<nat> {
    if s == [] then Some(0)
    else
      var n := |s| - 1;
      match ParseDigits(s[..n])
      case None => None
      case Some(v) =>
        if IsDigit(s[n]) then Some(v * 10 + DigitValue(s[n])) else None
  }

  /** `strconv.Atoi`: an optional sign, at least one digit, a value of 64 bits. */
  function Atoi(s: Bytes): Option<int> {
    var signed := s != [] && (s[0] == PLUS || s[0] == MINUS);
    var digits := if signed then s[1..] else s;
    if digits == [] then None
    else match ParseDigits(digits)
      case None => None
      case Some(v) =>
        var w: int := v;
        var n := if signed && s[0] == MINUS then -w else w;
        if -INT64_LIMIT <= n < INT64_LIMIT then Some(n) else None
  }

  lemma {:induction false} ParseDecimal(n: nat)
    ensures ParseDigits(Decimal(n)) == Some(n)
    ensures DIGIT_0 <= Decimal(n)[0]
  {
    if n >= 10 {
      ParseDecimal(n / 10);
      var s := Decimal(n);
      assert s[..|s| - 1] == Decimal(n / 10) && s[0] == Decimal(n / 10)[0];
    } else {
      assert Decimal(n)[..0] == [];
    }
  }

  lemma AtoiDecimal(n: nat)
    requires n < U32_LIMIT
    ensures Atoi(Decimal(n)) == Some(n)
  {
    ParseDecimal(n);
  }

  // ----- one value -----

  function EncodeValue(t: DataType, v: Bytes): Option<Bytes> {
    match t
    case Int => (match Atoi(v) case None => None case Some(n) => Some(U32(n)))
    case Str => Some(Framed(v))
    case Bool =>
      (match Atoi(v)
       case None => None
       case Some(n) => if n == 0 || n == 1 then Some([n]) else None)
    case Other(_) => Some([])
  }

  // ----- which texts are stored, and as what -----

  function Power10(k: nat): nat {
    if k == 0 then 1 else 10 * Power10(k - 1)
  }

  ghost predicate AllDigits(s: Bytes) {
    forall i :: 0 <= i < |s| ==> 48 <= s[i] <= 57
  }

  /** The number some digits stand for, each with the weight of its place. */
  ghost function Weighed(digits: Bytes): int {
    if digits == [] then 0 else (AsInt(digits[0]) - 48) * Power10(|digits| - 1) + Weighed(digits[1..])
  }

  /** An optional sign and at least one digit, nothing else. */
  ghost predicate NumeralOf(s: Bytes, sign: Bytes, digits: Bytes, n: int) {
    && s == sign + digits && digits != [] && AllDigits(digits)
    && ((sign == [] && n == Weighed(digits)) || (sign == [43] && n == Weighed(digits)) || (sign == [45] && n == -Weighed(digits)))
  }

  ghost predicate Spells(s: Bytes, n: int) {
    exists sign, digits :: NumeralOf(s, sign, digits, n)
  }

  lemma {:induction false} WeighedInit(digits: Bytes)
    requires digits != []
    ensures Weighed(digits) == Weighed(digits[..|digits| - 1]) * 10 + (AsInt(digits[|digits| - 1]) - 48)
  {
    var n := |digits| - 1;
    if n > 0 {
      WeighedInit(digits[1..]);
      assert digits[1..][..n - 1] == digits[..n][1..];
      Scaled(AsInt(digits[0]) - 48, Power10(n - 1));
    } else {
      assert digits[1..] == [] && digits[..0] == [];
    }
  }

  lemma Scaled(d: int, p: int)
    ensures d * (10 * p) == d * p * 10
  {
  }

  lemma {:induction false} DigitsIff(s: Bytes)
    ensures ParseDigits(s).Some? <==> AllDigits(s)
    ensures AllDigits(s) ==> ParseDigits(s).value == Weighed(s)
  {
    if s != [] {
      var n := |s| - 1;
      DigitsIff(s[..n]);
      assert s == s[..n] + [s[n]];
      WeighedInit(s);
    }
  }

  /** `Atoi` reads exactly the signed decimal numerals within 64 bits. */
  lemma AtoiIff(s: Bytes, n: int)
    ensures Atoi(s) == Some(n) <==> Spells(s, n) && -0x8000_0000_0000_0000 <= n <= 0x7fff_ffff_ffff_ffff
  {
    hide Weighed, ParseDigits;
    DigitsIff(s);
    if Atoi(s) == Some(n) {
      var signed := s[0] == PLUS || s[0] == MINUS;
      var sign, digits := s[..if signed then 1 else 0], s[if signed then 1 else 0..];
      DigitsIff(digits);
      assert NumeralOf(s, sign, digits, n);
    }
    if Spells(s, n) {
      var sign, digits :| NumeralOf(s, sign, digits, n);
      DigitsIff(digits);
      assert s[|sign|..] == digits;
      assert sign == [] ==> s[0] == digits[0];
    }
  }

  /** What an INSERT stores for a value: the low 32 bits of a number, highest byte first, a
      string behind its length, and one byte for 0 or 1. */
  ghost predicate Stores(t: DataType, v: Bytes, stored: Bytes) {
    match t
    case Int => exists n :: (Spells(v, n) && -0x8000_0000_0000_0000 <= n <= 0x7fff_ffff_ffff_ffff && BigEndian(stored, n))
    case Str => |stored| == 4 + |v| && stored[4..] == v && BigEndian(stored[..4], |v|)
    case Bool => |stored| == 1 && stored[0] <= 1 && Spells(v, stored[0])
    case Other(_) => stored == []
  }

  ghost predicate BigEndian(b: Bytes, n: int) {
    |b| == 4 &&
    AsInt(b[0]) * 0x100_0000 + AsInt(b[1]) * 0x1_0000 + AsInt(b[2]) * 0x100 + AsInt(b[3]) == n % 0x1_0000_0000
  }

  lemma BigEndianIff(b: Bytes, n: int)
    ensures BigEndian(b, n) <==> b == U32(n)
  {
    hide U32;
    U32Layout(n);
    if BigEndian(b, n) {
      ReadU32RoundTrip(b);
      SameLow(ReadU32(b), n);
    }
  }

  /** INSERT accepts a value if and only if it is such a text for the type of its column, and
      these are the bytes it stores. */
  lemma EncodeIff(t: DataType, v: Bytes, stored: Bytes)
    ensures EncodeValue(t, v) == Some(stored) <==> Stores(t, v, stored)
  {
    hide U32, Atoi, Spells, BigEndian;
    match t
    case Int =>
      if Atoi(v).Some? {
        AtoiIff(v, Atoi(v).value);
        BigEndianIff(stored, Atoi(v).value);
      }
      if Stores(t, v, stored) {
        var n :| Spells(v, n) && -0x8000_0000_0000_0000 <= n <= 0x7fff_ffff_ffff_ffff && BigEndian(stored, n);
        AtoiIff(v, n);
      }
    case Str =>
      BigEndianIff(U32(|v|), |v|);
      if |stored| == 4 + |v| {
        BigEndianIff(stored[..4], |v|);
        assert stored == stored[..4] + stored[4..];
      }
    case Bool =>
      if Atoi(v).Some? {
        AtoiIff(v, Atoi(v).value);
      }
      if Stores(t, v, stored) {
        AtoiIff(v, stored[0]);
        assert stored == [stored[0]];
      }
    case Other(_) =>
  }

  ghost predicate Acceptable(t: DataType, v: Bytes) {
    exists stored :: Stores(t, v, stored)
  }

  lemma AcceptableIff(t: DataType, v: Bytes)
    ensures EncodeValue(t, v).Some? <==> Acceptable(t, v)
  {
    hide EncodeValue, Stores;
    if EncodeValue(t, v).Some? {
      EncodeIff(t, v, EncodeValue(t, v).value);
    }
    if stored :| Stores(t, v, stored) {
      EncodeIff(t, v, stored);
    }
  }

  /** What a SELECT shows for a value that was stored. */
  function Shown(t: DataType, v: Bytes): Bytes
    requires EncodeValue(t, v).Some?
  {
    match t
    case Int => Decimal(Atoi(v).value % U32_LIMIT)
    case Bool => Decimal(Atoi(v).value)
    case _ => v
  }

  /** The spellings that come back as they went in. */
  predicate Canonical(t: DataType, v: Bytes) {
    match t
    case Int => Atoi(v).Some? && 0 <= Atoi(v).value < U32_LIMIT && v == Decimal(Atoi(v).value)
    case Bool => v == [DIGIT_0] || v == [DIGIT_0 + 1]
    case _ => true
  }

  lemma ShownIff(t: DataType, v: Bytes)
    requires EncodeValue(t, v).Some?
    ensures Shown(t, v) == v <==> Canonical(t, v)
  {
    hide U32;
    if t.Int? {
      AtoiDecimal(Atoi(v).value % U32_LIMIT);
    } else if t.Bool? {
      AtoiDecimal(0);
      AtoiDecimal(1);
    }
  }

  /** Digits with no zero in front, except zero itself. */
  ghost predicate Plain(s: Bytes) {
    s != [] && AllDigits(s) && (s[0] == 48 ==> |s| == 1)
  }

  lemma {:induction false} DecimalIsPlain(n: nat)
    ensures Plain(Decimal(n)) && Weighed(Decimal(n)) == n
    ensures Decimal(n)[0] == 48 ==> n == 0
  {
    hide Weighed;
    ParseDecimal(n);
    DigitsIff(Decimal(n));
    if n >= 10 {
      DecimalIsPlain(n / 10);
    }
  }

  lemma {:induction false} PlainIsDecimal(s: Bytes)
    requires Plain(s)
    ensures Weighed(s) >= 0 && s == Decimal(Weighed(s))
    ensures Weighed(s) == 0 ==> s == [48]
  {
    var n := |s| - 1;
    WeighedInit(s);
    if n > 0 {
      PlainIsDecimal(s[..n]);
      assert s == s[..n] + [s[n]];
    } else {
      assert s == [s[0]] && s[..0] == [];
    }
  }

  /** Integers come back as they went in exactly when they are plain decimals below 2^32. */
  lemma CanonicalIff(v: Bytes)
    ensures Canonical(Int, v) <==> Plain(v) && Weighed(v) < 0x1_0000_0000
  {
    hide Decimal, Weighed;
    if Canonical(Int, v) {
      DecimalIsPlain(Atoi(v).value);
    }
    if Plain(v) && Weighed(v) < 0x1_0000_0000 {
      PlainIsDecimal(v);
      AtoiDecimal(Weighed(v));
    }
  }

  // ----- rows -----

  /** The loop of `serialiseInsertIntoTableInput`. */
  function SerialiseRow(columns: seq<Column>, values: Row): Option<Bytes>
    requires |columns| == |values|
  {
    if columns == [] then Some([])
    else
      var n := |columns| - 1;
      match SerialiseRow(columns[..n], values[..n])
      case None => None
      case Some(buf) =>
        match EncodeValue(columns[n].dataType, values[n])
        case None => None
        case Some(more) => Some(buf + more)
  }

  datatype ReadValue = ReadValue(value: Option<Bytes>, rest: Bytes)

  /** One column of `deserializeRowValues`; a short buffer is a slice out of range. A column of
      an unknown type yields no value. */
  function DecodeValue(t: DataType, buf: Bytes): Outcome<ReadValue> {
    match t
    case Int => if |buf| < 4 then Panic else Ok(ReadValue(Some(Decimal(ReadU32(buf[..4]))), buf[4..]))
    case Str =>
      (match Take(buf)
       case None => Panic
       case Some(taken) => Ok(ReadValue(Some(taken.value), taken.rest)))
    case Bool => if buf == [] then Panic else Ok(ReadValue(Some(Binary(buf[0])), buf[1..]))
    case Other(_) => Ok(ReadValue(None, buf))
  }

  function DeserialiseRow(columns: seq<Column>, buf: Bytes): Outcome<Row> {
    if columns == [] then Ok([])
    else match DecodeValue(columns[0].dataType, buf)
      case Ok(v) =>
        (match DeserialiseRow(columns[1..], v.rest)
         case Ok(row) => Ok((if v.value.Some? then [v.value.value] else []) + row)
         case other => other)
      case Error => Error
      case Panic => Panic
  }

  predicate KnownTypes(columns: seq<Column>) {
    forall i :: 0 <= i < |columns| ==> !columns[i].dataType.Other?
  }

  predicate Serialisable(columns: seq<Column>, values: Row) {
    |columns| == |values| &&
    forall i :: 0 <= i < |columns| ==>
      EncodeValue(columns[i].dataType, values[i]).Some? && |values[i]| < U32_LIMIT
  }

  function ShownRow(columns: seq<Column>, values: Row): Row
    requires Serialisable(columns, values)
  {
    seq(|columns|, i requires 0 <= i < |columns| => Shown(columns[i].dataType, values[i]))
  }

  lemma {:induction false} SerialiseRowCons(columns: seq<Column>, values: Row)
    requires columns != [] && Serialisable(columns, values)
    ensures SerialiseRow(columns, values).Some? && SerialiseRow(columns[1..], values[1..]).Some?
    ensures SerialiseRow(columns, values).value ==
      EncodeValue(columns[0].dataType, values[0]).value + SerialiseRow(columns[1..], values[1..]).value
  {
    hide EncodeValue;
    var n := |columns| - 1;
    if n == 0 {
      assert columns[1..] == [] && columns[..0] == [];
    } else {
      SerialiseRowCons(columns[..n], values[..n]);
      assert columns[..n][1..] == columns[1..][..n - 1] && values[..n][1..] == values[1..][..n - 1];
    }
  }

  lemma ValueBack(t: DataType, v: Bytes, rest: Bytes)
    requires !t.Other? && EncodeValue(t, v).Some? && |v| < U32_LIMIT
    ensures DecodeValue(t, EncodeValue(t, v).value + rest) == Ok(ReadValue(Some(Shown(t, v)), rest))
  {
    hide U32, ReadU32, Take;
    var buf := EncodeValue(t, v).value + rest;
    if t.Int? {
      U32RoundTrip(Atoi(v).value);
      assert buf[..4] == U32(Atoi(v).value) && buf[4..] == rest;
    } else if t.Str? {
      TakeFramed(v, rest);
    } else {
      assert buf[1..] == rest;
    }
  }

  lemma {:induction false} RowBack(columns: seq<Column>, values: Row)
    requires KnownTypes(columns) && Serialisable(columns, values)
    ensures SerialiseRow(columns, values).Some?
    ensures DeserialiseRow(columns, SerialiseRow(columns, values).value) == Ok(ShownRow(columns, values))
  {
    hide EncodeValue, DecodeValue, SerialiseRow, Shown;
    if columns == [] {
      SerialiseNothing();
    } else {
      SerialiseRowCons(columns, values);
      ValueBack(columns[0].dataType, values[0], SerialiseRow(columns[1..], values[1..]).value);
      RowBack(columns[1..], values[1..]);
      assert ShownRow(columns, values) ==
        [Shown(columns[0].dataType, values[0])] + ShownRow(columns[1..], values[1..]);
    }
  }

  lemma SerialiseNothing()
    ensures SerialiseRow([], []) == Some([])
  {
  }

  /** A stored row reads back as it was given if and only if every integer is spelt as the
      canonical decimal of a number below 2^32 and every boolean as 0 or 1. */
  lemma RowRoundTripIff(columns: seq<Column>, values: Row)
    requires KnownTypes(columns) && Serialisable(columns, values)
    ensures SerialiseRow(columns, values).Some?
    ensures DeserialiseRow(columns, SerialiseRow(columns, values).value) == Ok(values)
      <==> forall i :: 0 <= i < |columns| ==> Canonical(columns[i].dataType, values[i])
  {
    hide EncodeValue, DecodeValue, SerialiseRow, Shown, Canonical, DeserialiseRow;
    RowBack(columns, values);
    forall i | 0 <= i < |columns|
      ensures Shown(columns[i].dataType, values[i]) == values[i] <==> Canonical(columns[i].dataType, values[i])
    {
      ShownIff(columns[i].dataType, values[i]);
    }
    var shown := ShownRow(columns, values);
    assert forall i :: 0 <= i < |columns| ==> shown[i] == Shown(columns[i].dataType, values[i]);
    if forall i :: 0 <= i < |columns| ==> Canonical(columns[i].dataType, values[i]) {
      assert shown == values;
    }
  }

  // ----- the loops -----

  method SerialiseRowLoop(columns: seq<Column>, values: Row) returns (r: Option<Bytes>)
    requires |columns| == |values|
    ensures r == SerialiseRow(columns, values)
  {
    hide EncodeValue;
    var buf := [];
    for i := 0 to |values|
      invariant SerialiseRow(columns[..i], values[..i]) == Some(buf)
    {
      assert columns[..i + 1][..i] == columns[..i] && values[..i + 1][..i] == values[..i];
      var more := EncodeValue(columns[i].dataType, values[i]);
      if more.None? {
        StaysUnserialised(columns, values, i + 1);
        return None;
      }
      buf := buf + more.value;
    }
    assert columns[..|values|] == columns && values[..|values|] == values;
    r := Some(buf);
  }

  lemma {:induction false} StaysUnserialised(columns: seq<Column>, values: Row, n: nat)
    requires |columns| == |values| && n <= |columns| && SerialiseRow(columns[..n], values[..n]).None?
    ensures SerialiseRow(columns, values).None?
    decreases |columns| - n
  {
    hide EncodeValue;
    if n < |columns| {
      assert columns[..n + 1][..n] == columns[..n] && values[..n + 1][..n] == values[..n];
      StaysUnserialised(columns, values, n + 1);
    } else {
      assert columns[..n] == columns && values[..n] == values;
    }
  }
}
