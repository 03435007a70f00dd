/** DuckDB filters, what they mean for a row, and the SQL condition each is translated to. */
module FilterSql {
  import opened Machine
  import opened OracleNumber
  import opened NumberReading
  import opened NumberBinds
  import opened Calendar
  import opened OracleDate
  import opened DateTimes
  import opened Numerals
  import opened SqlConditions
  import opened FilterValues
  import opened OracleColumns
  import Charsets
  import TypeMap

  const MAX_IN_LIST: nat := 1000
  const MAX_BIND_TEXT_BYTES: nat := 4000

  datatype ColumnKind =
    | NumberKind | BinaryFloatKind | BinaryDoubleKind | DateKind | TimestampKind | CharKind | LobKind | OtherKind

  datatype ColumnInfo = ColumnInfo(kind: ColumnKind, national: bool, binaryCollation: bool)

  function UpperChar(c: char): char {
    if 'a' <= c <= 'z' then c - 'a' + 'A' else c
  }

  function Upper(s: string): string {
    seq(|s|, i requires 0 <= i < |s| => UpperChar(s[i]))
  }

  predicate Contains(s: string, part: string) {
    part <= s || (s != "" && Contains(s[1..], part))
  }

  predicate IsUtf8Charset(charset: string) {
    Upper(charset) == "AL32UTF8" || Upper(charset) == "UTF8"
  }

  predicate IsAl32Utf8(charset: string) {
    Upper(charset) == "AL32UTF8"
  }

  /** The precision written in a type such as TIMESTAMP(3); 6 when there is none. */
  function TimestampPrecision(t: string): nat {
    var open := IndexOf(t, '(');
    if open >= |t| then 6 else NumberOf(t[open + 1..][..DigitRun(t[open + 1..])])
  }

  function KindOf(c: OracleColumn): ColumnKind {
    var t := c.dataType;
    if t == "NUMBER" then
      var plan := TypeMap.PlanNumber(c.precision, c.scale, false, TypeMap.AsDouble);
      if plan.NativeInteger? || plan.Decimal? then NumberKind else OtherKind
    else if t == "BINARY_FLOAT" then BinaryFloatKind
    else if t == "BINARY_DOUBLE" then BinaryDoubleKind
    else if t == "DATE" then DateKind
    else if "TIMESTAMP" <= t then
      if !Contains(t, "WITH") && TimestampPrecision(t) <= 6 then TimestampKind else OtherKind
    else if t == "VARCHAR2" || t == "NVARCHAR2" || t == "CHAR" || t == "NCHAR" then CharKind
    else if t == "CLOB" || t == "NCLOB" || t == "BLOB" then LobKind
    else OtherKind
  }

  function Classify(c: OracleColumn): ColumnInfo {
    var kind := KindOf(c);
    var collation := Upper(c.collation);
    ColumnInfo(kind, c.national || (kind == CharKind && c.dataType[0] == 'N'),
               collation == "" || collation == "USING_NLS_COMP" || collation == "BINARY")
  }

  datatype FilterConstant =
    | IntegerConstant(i64: int64)
    | DecimalConstant(i128: Hugeint, scale: uint8)
    | DoubleConstant(f64: Double, shown: string)
    | StringConstant(text: string)
    | TimestampConstant(micros: int)
    | DateConstant(days: int)

  /** DateEq is CAST(column AS DATE) = d. */
  datatype FilterOp = AndOp | OrOp | CompareOp(op: Op) | InOp | IsNullOp | IsNotNullOp | DateEqOp

  datatype FilterNode = FilterNode(
    op: FilterOp,
    column: nat,
    constants: seq<FilterConstant>,
    children: seq<FilterNode>)

  // What a filter means in DuckDB

  /** A row as DuckDB reads it: the value of each column, or NULL. */
  type Row = seq<Option<Value>>

  function ConstantValue(k: FilterConstant): Value {
    match k
    case IntegerConstant(i) => Num(Finite(i < 0, Abs(i), 0))
    case DecimalConstant(v, scale) => Num(Finite(v.Value() < 0, Abs(v.Value()), 0 - scale))
    case DoubleConstant(d, _) => Dbl(d)
    case StringConstant(text) => Str(text)
    case TimestampConstant(micros) => Time(micros)
    case DateConstant(days) => Time(days * MICROS_PER_DAY)
  }

  function CompareMeaning(op: Op, v: Value, k: FilterConstant): Truth {
    match Order(v, ConstantValue(k))
    case None => Unknown
    case Some(order) => Of(Satisfies(op, order))
  }

  predicate IsMember(v: Value, constants: seq<FilterConstant>) {
    exists k <- constants :: Order(v, ConstantValue(k)) == Some(0)
  }

  function LeafMeaning(node: FilterNode, row: Row): Truth {
    if node.column >= |row| then Unknown
    else
      var v := row[node.column];
      if node.op.IsNullOp? then Of(v == None)
      else if node.op.IsNotNullOp? then Of(v != None)
      else if v == None then Unknown
      else if node.op.InOp? then Of(IsMember(v.value, node.constants))
      else if |node.constants| != 1 then Unknown
      else if node.op.CompareOp? then CompareMeaning(node.op.op, v.value, node.constants[0])
      else if node.op.DateEqOp? && v.value.Time? && node.constants[0].DateConstant? then
        Of(v.value.micros / MICROS_PER_DAY == node.constants[0].days)
      else Unknown
  }

  function Meaning(node: FilterNode, row: Row): Truth {
    match node.op
    case AndOp => And(seq(|node.children|, i requires 0 <= i < |node.children| => Meaning(node.children[i], row)))
    case OrOp => Or(seq(|node.children|, i requires 0 <= i < |node.children| => Meaning(node.children[i], row)))
    case _ => LeafMeaning(node, row)
  }

  // Binds

  /** A text in single quotes, the quotes in it doubled. */
  function DoubledQuotes(s: string): string {
    if s == "" then "" else (if s[0] == '\'' then "''" else [s[0]]) + DoubledQuotes(s[1..])
  }

  function SqlStringLiteral(s: string): string {
    "'" + DoubledQuotes(s) + "'"
  }

  function BindOfNumber(v: int, scale: uint8): BindValue {
    BindValue(NumberData(BindOf(v, scale).bytes), BindOf(v, scale).display)
  }

  predicate HasFourDigitYear(micros: int) {
    -719162 * MICROS_PER_DAY <= micros < 2932897 * MICROS_PER_DAY
  }

  /** The 26 characters of an instant. */
  function InstantText(micros: int): (t: string)
    requires HasFourDigitYear(micros)
    ensures |t| == TEXT_CHARS
  {
    DateTimeRoundTrip(micros);
    DateTimeText(CivilFromDays(SplitMicros(micros).0), SplitMicros(micros).1)
  }

  /** A DATE bind, none when the year does not have four digits. */
  function BindOfDate(micros: int): Option<BindValue> {
    if !HasFourDigitYear(micros) then None
    else
      var text := InstantText(micros);
      Some(BindValue(DateData(EncodedDate(SplitMicros(micros).0, SplitMicros(micros).1)),
                     if SplitMicros(micros).1 / MICROS_PER_SECOND == 0 then "DATE '" + text[..10] + "'"
                     else "TO_DATE('" + text[..19] + "', 'YYYY-MM-DD HH24:MI:SS')"))
  }

  /** A TIMESTAMP bind: the text of the instant, converted in the statement. */
  function BindOfTimestamp(micros: int): Option<BindValue> {
    if !HasFourDigitYear(micros) then None
    else Some(BindValue(TextData(InstantText(micros)), SqlStringLiteral(InstantText(micros))))
  }

  /** Microseconds of a date or timestamp constant; dates far from the calendar are refused. */
  function ConstantMicros(k: FilterConstant): Option<int> {
    match k
    case TimestampConstant(micros) => Some(micros)
    case DateConstant(days) => if days > 4000000 || days < -4000000 then None else Some(days * MICROS_PER_DAY)
    case _ => None
  }

  predicate IsRange(op: FilterOp) {
    op.CompareOp? && op.op in {Lt, Le, Gt, Ge}
  }

  /** The text can be bound so that Oracle compares it, for equality, as DuckDB does. */
  predicate ExactText(info: ColumnInfo, charset: string, text: string) {
    && info.binaryCollation && text != "" && |Charsets.Encode(Charsets.Utf8, text)| <= MAX_BIND_TEXT_BYTES
    && 0 as char !in text && (IsUtf8Charset(charset) || Charsets.IsAscii(text))
  }

  /** An operand and what is bound for it. */
  datatype Bound = Bound(isTimestamp: bool, bind: BindValue)

  function OperandOf(info: ColumnInfo, charset: string, op: FilterOp, k: FilterConstant): Option<Bound> {
    match info.kind
    case NumberKind =>
      if k.IntegerConstant? then Some(Bound(false, BindOfNumber(k.i64, 0)))
      else if k.DecimalConstant? then Some(Bound(false, BindOfNumber(k.i128.Value(), k.scale)))
      else None
    case BinaryFloatKind => DoubleOperand(k)
    case BinaryDoubleKind => DoubleOperand(k)
    case DateKind =>
      var micros := ConstantMicros(k);
      if micros.None? || micros.value % MICROS_PER_SECOND != 0 then None
      else (match BindOfDate(micros.value) case None => None case Some(bind) => Some(Bound(false, bind)))
    case TimestampKind =>
      var micros := ConstantMicros(k);
      if micros.None? then None
      else (match BindOfTimestamp(micros.value) case None => None case Some(bind) => Some(Bound(true, bind)))
    case CharKind =>
      if !k.StringConstant? || !ExactText(info, charset, k.text) then None
      else if IsRange(op) && (!IsAl32Utf8(charset) || info.national) then None
      else Some(Bound(false, BindValue(VarcharData(k.text), SqlStringLiteral(k.text))))
    case _ => None
  }

  function DoubleOperand(k: FilterConstant): Option<Bound> {
    if k.DoubleConstant? && k.f64.Real? then
      Some(Bound(false, BindValue(DoubleData(k.f64, k.shown), k.shown + "d")))
    else None
  }

  // Translation

  datatype Built<T> = Built(sql: T, binds: seq<BindValue>)

  function SlotFor(bound: Bound, n: nat): Operand {
    if bound.isTimestamp then TimestampBind(n) else Bind(n)
  }

  /** The first i constants of an IN list as operands, the first bind being number `first` + 1. */
  function TranslateList(info: ColumnInfo, charset: string, constants: seq<FilterConstant>, i: nat, first: nat)
      : (r: Option<Built<seq<Operand>>>)
    requires i <= |constants|
    ensures r.Some? ==> |r.value.sql| == |r.value.binds| == i
  {
    if i == 0 then Some(Built([], []))
    else
      match TranslateList(info, charset, constants, i - 1, first)
      case None => None
      case Some(left) =>
        match OperandOf(info, charset, InOp, constants[i - 1])
        case None => None
        case Some(bound) => Some(Built(left.sql + [SlotFor(bound, first + i)], left.binds + [bound.bind]))
  }

  function TranslateLeaf(node: FilterNode, columns: seq<OracleColumn>, charset: string, first: nat)
      : Option<Built<Cond>>
  {
    if node.column >= |columns| then None
    else
      var column := columns[node.column];
      var info := Classify(column);
      match node.op
      case IsNullOp =>
        if info.kind == OtherKind && column.dataType != "NUMBER" then None
        else Some(Built(NullTest(column.name, true), []))
      case IsNotNullOp =>
        if info.kind == OtherKind && column.dataType != "NUMBER" then None
        else Some(Built(NullTest(column.name, false), []))
      case DateEqOp =>
        if info.kind != DateKind || |node.constants| != 1 || !node.constants[0].DateConstant? then None
        else
          var micros := ConstantMicros(node.constants[0]);
          if micros.None? || node.constants[0].days >= DaysFromCivil(Date(9999, 12, 31)) then None
          else (match BindOfDate(micros.value)
                case None => None
                case Some(bind) => Some(Built(DayRange(column.name, first + 1, first + 2), [bind, bind])))
      case InOp =>
        if info.kind == LobKind || info.kind == OtherKind || !(0 < |node.constants| <= MAX_IN_LIST) then None
        else (match TranslateList(info, charset, node.constants, |node.constants|, first)
              case None => None
              case Some(list) => Some(Built(InList(column.name, list.sql), list.binds)))
      case CompareOp(op) =>
        if |node.constants| != 1 then None
        else (match OperandOf(info, charset, node.op, node.constants[0])
              case None => None
              case Some(bound) => Some(Built(Compare(column.name, op, SlotFor(bound, first + 1)), [bound.bind])))
      case _ => None
  }

  function TranslateNode(node: FilterNode, columns: seq<OracleColumn>, charset: string, first: nat)
      : Option<Built<Cond>>
    decreases node, |node.children| + 1
  {
    if node.op.AndOp? || node.op.OrOp? then
      if node.children == [] then None
      else
        match TranslateChildren(node, columns, charset, |node.children|, first)
        case None => None
        case Some(all) =>
          Some(Built(if |all.sql| == 1 then Group(all.sql[0]) else Junction(node.op.AndOp?, all.sql), all.binds))
    else TranslateLeaf(node, columns, charset, first)
  }

  /** The first i children of a node. */
  function TranslateChildren(node: FilterNode, columns: seq<OracleColumn>, charset: string, i: nat, first: nat)
      : (r: Option<Built<seq<Cond>>>)
    requires i <= |node.children|
    ensures r.Some? ==> |r.value.sql| == i
    decreases node, i
  {
    if i == 0 then Some(Built([], []))
    else
      match TranslateChildren(node, columns, charset, i - 1, first)
      case None => None
      case Some(left) =>
        match TranslateNode(node.children[i - 1], columns, charset, first + |left.binds|)
        case None => None
        case Some(last) => Some(Built(left.sql + [last.sql], left.binds + last.binds))
  }
}
