/** What a condition means in Oracle, for the values that the table stores and the binds that the statement carries. */
module OracleConditions {
  import opened Machine
  import OracleNumber
  import opened NumberReading
  import opened OracleDate
  import opened DateTimes
  import opened SqlConditions
  import opened FilterValues
  import opened OracleColumns
  import Charsets
  import TypeMap

  /** Oracle's limits: expressions in an IN list, and bytes of a VARCHAR2 value. */
  const LIST_LIMIT: nat := 1000
  const VARCHAR_LIMIT: nat := 4000

  /** A row as Oracle stores it. */
  type StoredRow = seq<Option<Stored>>

  /** What is not known of a database: how it compares texts by a collation, or when they are long or hold a NUL; what
      it makes of a text that its character set may not have; the bytes of characters beyond ASCII in a character set
      that is not Unicode; which of the two national character sets it has; how it compares values of different types;
      and its conversion of a NUMBER to a double. `numbers` is how columns without precision and scale are read. */
  datatype Database = Database(
    holds: (Op, string, string) -> bool,
    converts: string -> string,
    lead: char -> nat,
    trail: char -> seq<uint8>,
    nationalUtf8: bool,
    mixed: (Op, Stored, Value) -> Truth,
    nearest: OracleNumber.Number -> FilterValues.Double,
    numbers: TypeMap.Unconstrained)

  /** The character set of the database, by its name. */
  function DatabaseCharset(charset: string, other: Database): Charsets.Charset {
    if SameName(charset, "AL32UTF8") then Charsets.Utf8
    else if SameName(charset, "UTF8") then Charsets.Cesu8
    else Charsets.AsciiBased(other.lead, other.trail)
  }

  predicate IsNational(c: OracleColumn) {
    c.national || c.dataType == "NVARCHAR2" || c.dataType == "NCHAR"
  }

  /** Comparisons of the column's texts are not by a linguistic collation. */
  predicate IsBinary(c: OracleColumn) {
    c.collation == "" || SameName(c.collation, "USING_NLS_COMP") || SameName(c.collation, "BINARY")
  }

  /** The character set of a column. */
  function CharsetOf(c: OracleColumn, charset: string, other: Database): Charsets.Charset {
    if !IsNational(c) then DatabaseCharset(charset, other)
    else if other.nationalUtf8 then Charsets.Cesu8
    else Charsets.Utf16
  }

  /** A bound text as the database receives it. */
  function Received(charset: string, other: Database, text: string): string {
    if !DatabaseCharset(charset, other).AsciiBased? || Charsets.IsAscii(text) then text else other.converts(text)
  }

  /** A column's text compared with a bound one: byte by byte in the column's character set, unless the column has a
      collation or the bound text cannot be a VARCHAR2 value. */
  function TextHolds(c: OracleColumn, charset: string, other: Database, op: Op, v: string, b: string): bool {
    if !IsBinary(c) || |Charsets.Encode(Charsets.Utf8, b)| > VARCHAR_LIMIT || 0 as char in b then other.holds(op, v, b)
    else
      var cs := CharsetOf(c, charset, other);
      Satisfies(op, Charsets.ByteOrder(Charsets.Encode(cs, v), Charsets.Encode(cs, Received(charset, other, b))))
  }

  /** A value of an operand, NULL, or an error. */
  datatype Evaluated = Bad | NoValue | Got(value: Value)

  function OperandValue(o: Operand, binds: seq<BindValue>): Evaluated {
    if o.n < 1 || o.n > |binds| then Bad
    else
      match (o, binds[o.n - 1].data)
      case (Bind(_), NumberData(bytes)) =>
        var number := OracleNumber.Meaning(bytes);
        if number.Success? && number.value.Finite? then Got(Num(number.value)) else Bad
      case (Bind(_), DateData(bytes)) =>
        if |bytes| == DATE_BYTES && DateExists(bytes) then Got(Time(DateMicros(bytes))) else Bad
      case (Bind(_), VarcharData(text)) => if text == "" then NoValue else Got(Str(text))
      case (Bind(_), DoubleData(d, _)) => Got(Dbl(d))
      case (TimestampBind(_), TextData(chars)) =>
        var instant := ReadDateTime(chars);
        if instant.Some? then Got(Time(instant.value)) else Bad
      case _ => Bad
  }

  /** A stored value compared with a bound one. Instants are compared to the nanosecond. */
  function CompareStored(c: OracleColumn, charset: string, other: Database, op: Op, s: Stored, b: Value): Truth {
    match (s, b)
    case (NumberStored(n), Num(m)) =>
      if !m.Finite? then Error
      else if n.Finite? then Of(Satisfies(op, NumberOrder(n, m)))
      else Of(Satisfies(op, if n.negative then -1 else 1))
    case (DoubleStored(d), Dbl(e)) => Of(Satisfies(op, DoubleOrder(d, e)))
    case (InstantStored(nanos), Time(micros)) => Of(Satisfies(op, Sign(nanos - micros * 1000)))
    case (TextStored(v), Str(text)) => Of(TextHolds(c, charset, other, op, v, text))
    case _ => other.mixed(op, s, b)
  }

  function Lookup(columns: seq<OracleColumn>, name: string): (i: nat)
    ensures i <= |columns| && (i < |columns| ==> columns[i].name == name)
    ensures forall k :: 0 <= k < i ==> columns[k].name != name
  {
    if columns == [] || columns[0].name == name then 0 else 1 + Lookup(columns[1..], name)
  }

  /** A column compared with one operand. */
  function OperandTruth(c: OracleColumn, charset: string, other: Database, op: Op, v: Option<Stored>, e: Evaluated)
      : Truth
  {
    if e.Bad? then Error
    else if v == None || e.NoValue? then Unknown
    else CompareStored(c, charset, other, op, v.value, e.value)
  }

  /** The last microsecond of year 9999, after which a date plus one day is an error. */
  const LAST_MICROS: int := 2932897 * MICROS_PER_DAY - 1

  function Eval(c: Cond, binds: seq<BindValue>, columns: seq<OracleColumn>, charset: string, other: Database,
                row: StoredRow): Truth
    requires |row| == |columns|
    decreases c
  {
    match c
    case Group(child) => Eval(child, binds, columns, charset, other, row)
    case Junction(isAnd, children) =>
      var truths := seq(|children|, i requires 0 <= i < |children| =>
                                      Eval(children[i], binds, columns, charset, other, row));
      if isAnd then And(truths) else Or(truths)
    case _ =>
      var i := Lookup(columns, c.column);
      if i >= |columns| then Error else LeafTruth(c, binds, columns[i], charset, other, row[i])
  }

  function LeafTruth(c: Cond, binds: seq<BindValue>, column: OracleColumn, charset: string, other: Database,
                     v: Option<Stored>): Truth
    requires !c.Group? && !c.Junction?
  {
    match c
    case NullTest(_, isNull) => Of((v == None) == isNull)
    case Compare(_, op, operand) => OperandTruth(column, charset, other, op, v, OperandValue(operand, binds))
    case InList(_, operands) =>
      if |operands| > LIST_LIMIT then Error
      else Or(seq(|operands|, i requires 0 <= i < |operands| =>
                                OperandTruth(column, charset, other, Eq, v, OperandValue(operands[i], binds))))
    case DayRange(_, lo, hi) =>
      var from, until := OperandValue(Bind(lo), binds), OperandValue(Bind(hi), binds);
      if !until.Got? || !until.value.Time? || until.value.micros + MICROS_PER_DAY > LAST_MICROS then Error
      else And([OperandTruth(column, charset, other, Ge, v, from),
                OperandTruth(column, charset, other, Lt, v, Got(Time(until.value.micros + MICROS_PER_DAY)))])
  }

  // What DuckDB reads of a row

  function ReadRow(columns: seq<OracleColumn>, other: Database, row: StoredRow): (r: seq<Option<Value>>)
    requires |row| == |columns|
    ensures |r| == |row|
  {
    seq(|row|, i requires 0 <= i < |row| =>
                 match row[i]
                 case None => None
                 case Some(s) => Some(ReadValue(columns[i], other.numbers, other.nearest, s)))
  }

  /** Every column of the row can hold its value. */
  ghost predicate RowStored(columns: seq<OracleColumn>, row: StoredRow) {
    |row| == |columns| && forall i :: 0 <= i < |row| && row[i].Some? ==> Stores(columns[i], row[i].value)
  }

  lemma ReadRowAt(columns: seq<OracleColumn>, other: Database, row: StoredRow, i: nat)
    requires |row| == |columns| && i < |row|
    ensures ReadRow(columns, other, row)[i]
         == if row[i].None? then None else Some(ReadValue(columns[i], other.numbers, other.nearest, row[i].value))
  {}
}
