/** Which filters are handed to Oracle: exactly those that compare columns with constants that Oracle compares as DuckDB
    does, said by the names of the columns' types. */
module FilterCoverage {
  import opened Calendar
  import opened OracleDate
  import opened SqlConditions
  import opened OracleColumns
  import opened OracleConditions
  import opened FilterSql
  import opened FilterSoundness
  import opened FilterBuilder
  import opened Pushdown
  import Charsets
  import TypeMap

  /** The types of instants are named as the dictionary names them. */
  ghost predicate KnownType(c: OracleColumn) {
    "TIMESTAMP" <= c.dataType ==>
      exists p: nat, zone :: IsTimestampName(c.dataType, p, zone) && zone in {NO_ZONE, TIME_ZONE, LOCAL_TIME_ZONE}
  }

  const CHARACTER_TYPES: set<string> := {"VARCHAR2", "NVARCHAR2", "CHAR", "NCHAR"}
  const LOB_TYPES: set<string> := {"CLOB", "NCLOB", "BLOB"}

  /** A NUMBER with precision or scale whose values all fit a decimal of 38 digits. */
  predicate ExactNumber(c: OracleColumn) {
    && c.dataType == "NUMBER" && (c.precision >= 0 || c.scale >= 0)
    && (c.scale < 0 ==> (if c.precision > 0 then c.precision else 38) - c.scale <= 38)
    && (c.scale > 38 ==> c.scale <= c.precision)
  }

  /** TIMESTAMP(p) without a zone and with at most 6 digits of a second. */
  ghost predicate MicrosTimestamp(c: OracleColumn) {
    exists p: nat :: p <= 6 && IsTimestampName(c.dataType, p, NO_ZONE)
  }

  /** An instant that Oracle can have a date and time for, which a column of this type can be compared with. */
  ghost predicate InstantComparable(c: OracleColumn, micros: int) {
    && 1 <= CivilFromDays(micros / MICROS_PER_DAY).year <= 9999
    && ((c.dataType == "DATE" && micros % MICROS_PER_SECOND == 0) || MicrosTimestamp(c))
  }

  predicate TextComparable(c: OracleColumn, charset: string, ranged: bool, text: string) {
    && c.dataType in CHARACTER_TYPES && IsBinary(c)
    && text != "" && |Charsets.Encode(Charsets.Utf8, text)| <= 4000 && 0 as char !in text
    && (SameName(charset, "AL32UTF8") || SameName(charset, "UTF8") || Charsets.IsAscii(text))
    && (ranged ==> SameName(charset, "AL32UTF8") && !IsNational(c))
  }

  /** The column can be compared with the constant. */
  ghost predicate Comparable(c: OracleColumn, charset: string, ranged: bool, k: FilterConstant) {
    match k
    case IntegerConstant(_) => ExactNumber(c)
    case DecimalConstant(_, _) => ExactNumber(c)
    case DoubleConstant(d, _) => c.dataType in {"BINARY_FLOAT", "BINARY_DOUBLE"} && d.Real?
    case StringConstant(text) => TextComparable(c, charset, ranged, text)
    case TimestampConstant(micros) => InstantComparable(c, micros)
    case DateConstant(days) => InstantComparable(c, days * MICROS_PER_DAY)
  }

  /** A column that can be tested for NULL. */
  ghost predicate Testable(c: OracleColumn) {
    || c.dataType in {"NUMBER", "BINARY_FLOAT", "BINARY_DOUBLE", "DATE"} + CHARACTER_TYPES + LOB_TYPES
    || MicrosTimestamp(c)
  }

  ghost predicate Covered(node: FilterNode, columns: seq<OracleColumn>, charset: string) {
    if node.op.AndOp? || node.op.OrOp? then
      node.children != [] && forall i :: 0 <= i < |node.children| ==> Covered(node.children[i], columns, charset)
    else node.column < |columns| && LeafCovered(node, columns[node.column], charset)
  }

  ghost predicate LeafCovered(node: FilterNode, c: OracleColumn, charset: string) {
    match node.op
    case IsNullOp => Testable(c)
    case IsNotNullOp => Testable(c)
    case CompareOp(op) =>
      |node.constants| == 1 && Comparable(c, charset, op in {Lt, Le, Gt, Ge}, node.constants[0])
    case InOp =>
      && 1 <= |node.constants| <= 1000
      && forall i :: 0 <= i < |node.constants| ==> Comparable(c, charset, false, node.constants[i])
    case DateEqOp =>
      && c.dataType == "DATE" && |node.constants| == 1 && node.constants[0].DateConstant?
      && 1 <= CivilFromDays(node.constants[0].days).year <= 9999
      && CivilFromDays(node.constants[0].days) != Date(9999, 12, 31)
    case _ => false
  }

  // The kinds of columns

  lemma MicrosKind(c: OracleColumn)
    requires KnownType(c)
    ensures KindOf(c) == TimestampKind <==> MicrosTimestamp(c)
  {
    hide Contains, TimestampPrecision, TypeMap.PlanNumber, IsTimestampName;
    KindNames(c);
    if "TIMESTAMP" <= c.dataType {
      var p: nat, zone :| IsTimestampName(c.dataType, p, zone) && zone in {NO_ZONE, TIME_ZONE, LOCAL_TIME_ZONE};
      if zone == NO_ZONE {
        TimestampName(c.dataType, p);
        assert |c.dataType| >= 9 && c.dataType[0] == 'T';
      } else {
        ZonedName(c.dataType, p, zone);
      }
    }
    forall p: nat | IsTimestampName(c.dataType, p, NO_ZONE) && p <= 6 ensures KindOf(c) == TimestampKind {
      TimestampName(c.dataType, p);
      assert |c.dataType| >= 9 && c.dataType[0] == 'T';
    }
  }

  lemma NumberKinds(c: OracleColumn)
    ensures KindOf(c) == NumberKind <==> ExactNumber(c)
  {
    hide Contains, TimestampPrecision;
  }

  lemma OtherKinds(c: OracleColumn)
    ensures KindOf(c) == DateKind <==> c.dataType == "DATE"
    ensures KindOf(c) == CharKind <==> c.dataType in CHARACTER_TYPES
    ensures KindOf(c) == LobKind <==> c.dataType in LOB_TYPES
    ensures KindOf(c) == BinaryFloatKind || KindOf(c) == BinaryDoubleKind
       <==> c.dataType in {"BINARY_FLOAT", "BINARY_DOUBLE"}
    ensures KindOf(c) == NumberKind ==> c.dataType == "NUMBER"
    ensures KindOf(c) == TimestampKind ==> c.dataType != "DATE"
  {
    hide Contains, TimestampPrecision, TypeMap.PlanNumber;
    assert c.dataType in CHARACTER_TYPES ==> |c.dataType| < 9 || c.dataType[0] != 'T';
  }

  // Constants

  lemma YearsOfMicros(micros: int)
    ensures HasFourDigitYear(micros) <==> 1 <= CivilFromDays(micros / MICROS_PER_DAY).year <= 9999
  {
    hide CivilFromDays;
    FourDigitYears(micros / MICROS_PER_DAY);
  }

  lemma WholeDays(days: int)
    ensures days * MICROS_PER_DAY / MICROS_PER_DAY == days && days * MICROS_PER_DAY % MICROS_PER_SECOND == 0
    ensures HasFourDigitYear(days * MICROS_PER_DAY) ==> -4000000 <= days <= 4000000
  {
    assert days * MICROS_PER_DAY == (days * 86400) * MICROS_PER_SECOND;
  }

  /** A constant becomes an operand exactly if the column can be compared with it. */
  lemma OperandCovered(c: OracleColumn, charset: string, op: FilterOp, k: FilterConstant)
    requires KnownType(c)
    ensures OperandOf(Classify(c), charset, op, k).Some? <==> Comparable(c, charset, IsRange(op), k)
  {
    hide KnownType, KindOf, MicrosTimestamp, ExactNumber, TextComparable, ExactText, InstantComparable, IsBinary,
         IsNational, SameName, Upper, BindOfNumber, BindOfDate, BindOfTimestamp;
    MicrosKind(c);
    NumberKinds(c);
    OtherKinds(c);
    match k
    case StringConstant(text) => TextCovered(c, charset, op, text);
    case TimestampConstant(micros) => InstantCovered(c, charset, op, k, micros);
    case DateConstant(days) => InstantCovered(c, charset, op, k, days * MICROS_PER_DAY);
    case _ =>
  }

  lemma TextCovered(c: OracleColumn, charset: string, op: FilterOp, text: string)
    ensures OperandOf(Classify(c), charset, op, StringConstant(text)).Some?
       <==> TextComparable(c, charset, IsRange(op), text)
  {
    hide KindOf, SameName, Upper, IsNational, IsBinary;
    OtherKinds(c);
    CollationNames(c);
    UpperIs(charset, "AL32UTF8");
    UpperIs(charset, "UTF8");
  }

  lemma InstantCovered(c: OracleColumn, charset: string, op: FilterOp, k: FilterConstant, micros: int)
    requires KnownType(c)
    requires k == TimestampConstant(micros) || (k.DateConstant? && micros == k.days * MICROS_PER_DAY)
    ensures OperandOf(Classify(c), charset, op, k).Some? <==> InstantComparable(c, micros)
  {
    hide KnownType, KindOf, MicrosTimestamp, ExactText, InstantText, EncodedDate, CivilFromDays;
    MicrosKind(c);
    OtherKinds(c);
    YearsOfMicros(micros);
    if k.DateConstant? { WholeDays(k.days); }
  }

  // Filters

  lemma {:induction false} ListCovered(info: ColumnInfo, charset: string, constants: seq<FilterConstant>, i: nat,
                                       first: nat)
    requires i <= |constants|
    ensures TranslateList(info, charset, constants, i, first).Some?
       <==> forall j :: 0 <= j < i ==> OperandOf(info, charset, InOp, constants[j]).Some?
  {
    hide OperandOf;
    if i > 0 { ListCovered(info, charset, constants, i - 1, first); }
  }

  lemma LeafIsCovered(node: FilterNode, columns: seq<OracleColumn>, charset: string, first: nat)
    requires node.column < |columns| && KnownType(columns[node.column]) && !node.op.AndOp? && !node.op.OrOp?
    ensures TranslateLeaf(node, columns, charset, first).Some? <==> LeafCovered(node, columns[node.column], charset)
  {
    hide OperandOf, Comparable, KnownType, KindOf, MicrosTimestamp, TranslateList, BindOfDate, CivilFromDays,
         DaysFromCivil, ConstantMicros;
    var c := columns[node.column];
    assert Classify(c).kind == KindOf(c);
    MicrosKind(c);
    OtherKinds(c);
    match node.op
    case CompareOp(_) =>
      if |node.constants| == 1 { OperandCovered(c, charset, node.op, node.constants[0]); }
    case InOp => InCovered(node, c, charset, first);
    case DateEqOp =>
      if |node.constants| == 1 && node.constants[0].DateConstant? { DateCovered(node.constants[0].days); }
    case _ => NumberKinds(c);
  }

  lemma DateCovered(days: int)
    ensures var micros := ConstantMicros(DateConstant(days));
            (micros.Some? && days < DaysFromCivil(Date(9999, 12, 31)) && BindOfDate(micros.value).Some?)
            <==> 1 <= CivilFromDays(days).year <= 9999 && CivilFromDays(days) != Date(9999, 12, 31)
  {
    hide CivilFromDays, DaysFromCivil, EncodedDate, InstantText;
    WholeDays(days);
    YearsOfMicros(days * MICROS_PER_DAY);
    LastDay();
    DaysOfCivil(days);
    Bounds();
    CivilOfDays(Date(9999, 12, 31));
  }

  lemma InCovered(node: FilterNode, c: OracleColumn, charset: string, first: nat)
    requires KnownType(c) && node.op.InOp?
    ensures (!Classify(c).kind.LobKind? && !Classify(c).kind.OtherKind? && 0 < |node.constants| <= MAX_IN_LIST
             && TranslateList(Classify(c), charset, node.constants, |node.constants|, first).Some?)
       <==> LeafCovered(node, c, charset)
  {
    hide OperandOf, Comparable, KnownType, Classify;
    ListCovered(Classify(c), charset, node.constants, |node.constants|, first);
    forall j | 0 <= j < |node.constants|
      ensures OperandOf(Classify(c), charset, InOp, node.constants[j]).Some?
         <==> Comparable(c, charset, false, node.constants[j])
      ensures OperandOf(Classify(c), charset, InOp, node.constants[j]).Some? ==>
                !Classify(c).kind.LobKind? && !Classify(c).kind.OtherKind?
    {
      OperandCovered(c, charset, InOp, node.constants[j]);
      if OperandOf(Classify(c), charset, InOp, node.constants[j]).Some? {
        OperandKinds(Classify(c), charset, InOp, node.constants[j]);
      }
    }
  }

  /** A filter is translated exactly if it is covered. */
  lemma {:induction false} TranslatedIfCovered(node: FilterNode, columns: seq<OracleColumn>, charset: string,
                                               first: nat)
    requires forall i :: 0 <= i < |columns| ==> KnownType(columns[i])
    ensures TranslateNode(node, columns, charset, first).Some? <==> Covered(node, columns, charset)
    decreases node, |node.children| + 1
  {
    hide TranslateLeaf, LeafCovered, KnownType;
    if node.op.AndOp? || node.op.OrOp? {
      ChildrenCovered(node, columns, charset, |node.children|, first);
    } else if node.column < |columns| {
      LeafIsCovered(node, columns, charset, first);
    } else {
      NoColumn(node, columns, charset, first);
    }
  }

  lemma NoColumn(node: FilterNode, columns: seq<OracleColumn>, charset: string, first: nat)
    requires node.column >= |columns|
    ensures TranslateLeaf(node, columns, charset, first).None?
  {}

  lemma {:induction false} ChildrenCovered(node: FilterNode, columns: seq<OracleColumn>, charset: string, i: nat,
                                           first: nat)
    requires i <= |node.children| && forall i :: 0 <= i < |columns| ==> KnownType(columns[i])
    ensures TranslateChildren(node, columns, charset, i, first).Some?
       <==> forall j :: 0 <= j < i ==> Covered(node.children[j], columns, charset)
    decreases node, i
  {
    hide TranslateNode, Covered, KnownType;
    if i > 0 {
      ChildrenCovered(node, columns, charset, i - 1, first);
      var left := TranslateChildren(node, columns, charset, i - 1, first);
      if left.Some? { TranslatedIfCovered(node.children[i - 1], columns, charset, first + |left.value.binds|); }
    }
  }

  // Expressions

  /** Comparisons of a bare column with a constant, in either order, of a column cast to DATE with one, and AND and OR
      of these. */
  predicate Recognised(e: Expr) {
    match e
    case Comparison(op, left, right) =>
      || (left.ColumnRef? && right.Constant?) || (left.Constant? && right.ColumnRef?)
      || (op == Eq && left.CastToDate? && right.Constant? && right.k.DateConstant?)
      || (op == Eq && right.CastToDate? && left.Constant? && left.k.DateConstant?)
    case Between(input, lower, upper, _, _) => input.ColumnRef? && lower.Constant? && upper.Constant?
    case NullCheck(term, _) => term.ColumnRef?
    case InExpr(term, list) => term.ColumnRef? && list != [] && forall i :: 0 <= i < |list| ==> list[i].Constant?
    case Conjunction(_, children) => children != [] && forall i :: 0 <= i < |children| ==> Recognised(children[i])
    case OtherExpr(_) => false
  }

  lemma {:induction false} ConstantsRecognised(list: seq<Term>)
    ensures ConvertConstants(list).Some? <==> forall i :: 0 <= i < |list| ==> list[i].Constant?
  {
    if list != [] { ConstantsRecognised(list[..|list| - 1]); }
  }

  lemma {:induction false} ConvertedIfRecognised(e: Expr)
    ensures Convert(e).Some? <==> Recognised(e)
    decreases e, |if e.Conjunction? then e.children else []| + 1
  {
    match e
    case InExpr(_, list) => ConstantsRecognised(list);
    case Conjunction(_, children) => ChildrenRecognised(e, |children|);
    case _ =>
  }

  lemma {:induction false} ChildrenRecognised(e: Expr, i: nat)
    requires e.Conjunction? && i <= |e.children|
    ensures ConvertChildren(e, i).Some? <==> forall j :: 0 <= j < i ==> Recognised(e.children[j])
    decreases e, i
  {
    hide Convert, Recognised;
    if i > 0 {
      ChildrenRecognised(e, i - 1);
      ConvertedIfRecognised(e.children[i - 1]);
    }
  }

  /** An expression is left to DuckDB exactly if it has another form, or compares a column with what Oracle would not
      compare alike. */
  lemma PushedIfCovered(e: Expr, columns: seq<OracleColumn>, charset: string)
    requires forall i :: 0 <= i < |columns| ==> KnownType(columns[i])
    ensures Pushable(e, columns, charset) ==> Recognised(e)
    ensures Recognised(e) ==>
              Convert(e).Some? && (Pushable(e, columns, charset) <==> Covered(Convert(e).value, columns, charset))
  {
    hide Convert, Recognised, Covered, TranslateNode, KnownType, Text, Display;
    ConvertedIfRecognised(e);
    if Recognised(e) { TranslatedIfCovered(Convert(e).value, columns, charset, 0); }
  }
}
