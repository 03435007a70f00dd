/** The condition that a filter is translated to is true, false or unknown exactly where the filter is. */
module FilterSoundness {
  import opened Machine
  import opened Digits
  import opened NumberReading
  import opened NumberBinds
  import opened NumberEncoding
  import opened Calendar
  import opened OracleDate
  import opened DateTimes
  import opened Numerals
  import opened SqlConditions
  import opened FilterValues
  import opened OracleColumns
  import opened OracleConditions
  import opened FilterSql
  import Charsets
  import TypeMap

  // What is stored and what is read in the columns that filters are pushed for

  /** A text without a letter of the part does not contain the part. */
  lemma {:induction false} NoLetter(s: string, part: string, i: nat)
    requires i < |part| && part[i] !in s
    ensures !Contains(s, part)
  {
    PrefixLetter(s, part, i);
    if s != "" { NoLetter(s[1..], part, i); }
  }

  lemma PrefixLetter(s: string, part: string, i: nat)
    requires i < |part|
    ensures part <= s ==> part[i] in s
  {
    if part <= s { assert s[i] == part[i]; }
  }

  lemma {:induction false} PartContained(before: string, part: string, after: string)
    ensures Contains(before + part + after, part)
  {
    var s := before + part + after;
    if before == "" {
      assert s == part + after;
    } else {
      PartContained(before[1..], part, after);
      assert s[1..] == before[1..] + part + after;
    }
  }

  /** The type name of a TIMESTAMP without a zone is read as its precision. */
  lemma TimestampName(name: string, p: nat)
    requires IsTimestampName(name, p, NO_ZONE)
    ensures "TIMESTAMP" <= name && !Contains(name, "WITH") && TimestampPrecision(name) == p
  {
    hide Decimal, NumberOf, DigitRun;
    if name == "TIMESTAMP" {
      NoLetter(name, "WITH", 0);
      IndexIs(name, '(', 9);
    } else {
      DecimalDigits(p);
      assert name == "TIMESTAMP(" + Decimal(p) + ")";
      assert 'W' !in name;
      NoLetter(name, "WITH", 0);
      IndexIs(name, '(', 9);
      assert name[10..] == Decimal(p) + ")";
      RunOfDigits(Decimal(p), ")");
      assert name[10..][..|Decimal(p)|] == Decimal(p);
      NumberOfDecimal(p);
    }
  }

  /** The type name of a TIMESTAMP with a zone is recognised. */
  lemma ZonedName(name: string, p: nat, zone: string)
    requires IsTimestampName(name, p, zone) && (zone == TIME_ZONE || zone == LOCAL_TIME_ZONE)
    ensures "TIMESTAMP" <= name && Contains(name, "WITH")
  {
    hide Decimal, Contains;
    var before := if name == "TIMESTAMP" + zone then "TIMESTAMP" else "TIMESTAMP(" + Decimal(p) + ")";
    assert name == before + zone;
    ZoneContained(before, zone);
  }

  lemma ZoneContained(before: string, zone: string)
    requires zone == TIME_ZONE || zone == LOCAL_TIME_ZONE
    ensures Contains(before + zone, "WITH")
  {
    hide Contains;
    assert zone == " " + "WITH" + zone[5..];
    PartContained(before + " ", "WITH", zone[5..]);
    assert before + zone == (before + " ") + "WITH" + zone[5..];
  }

  /** Only names that start with TIMESTAMP are names of a TIMESTAMP. */
  lemma OtherNames(name: string)
    requires |name| < 9 || name[0] != 'T'
    ensures forall p: nat, zone: string :: !IsTimestampName(name, p, zone)
  {
    forall p: nat, zone: string ensures !IsTimestampName(name, p, zone) { NameStarts(name, p, zone); }
  }

  lemma NameStarts(name: string, p: nat, zone: string)
    ensures IsTimestampName(name, p, zone) ==> "TIMESTAMP" <= name
  {
    hide Decimal;
  }

  /** Names in capitals: equal after conversion to capitals exactly when they are equal but for the case. */
  lemma UpperIs(s: string, t: string)
    requires forall i :: 0 <= i < |t| ==> !('a' <= t[i] <= 'z')
    ensures Upper(s) == t <==> SameName(s, t)
  {
    if SameName(s, t) {
      forall i | 0 <= i < |s| ensures UpperChar(s[i]) == t[i] { assert SameLetter(s[i], t[i]); }
      assert Upper(s) == t;
    }
    if Upper(s) == t {
      forall i | 0 <= i < |s| ensures SameLetter(s[i], t[i]) { assert Upper(s)[i] == UpperChar(s[i]); }
    }
  }

  lemma CharsetNames(charset: string, other: Database)
    ensures IsAl32Utf8(charset) <==> DatabaseCharset(charset, other).Utf8?
    ensures IsUtf8Charset(charset) <==> !DatabaseCharset(charset, other).AsciiBased?
  {
    hide Upper, SameName;
    UpperIs(charset, "AL32UTF8");
    UpperIs(charset, "UTF8");
  }

  lemma CollationNames(c: OracleColumn)
    ensures Classify(c).binaryCollation == IsBinary(c)
    ensures KindOf(c) == CharKind ==> Classify(c).national == IsNational(c)
  {
    hide SameName;
    UpperIs(c.collation, "USING_NLS_COMP");
    UpperIs(c.collation, "BINARY");
    assert Upper(c.collation) == "" <==> c.collation == "";
  }

  /** What DuckDB reads in a column of a kind that comparisons are pushed for is what is stored. */
  ghost predicate ReadAs(kind: ColumnKind, s: Stored, v: Value) {
    match kind
    case NumberKind => s.NumberStored? && s.n.Finite? && v.Num? && v.n.Finite? && NumberOrder(v.n, s.n) == 0
    case BinaryFloatKind => s.DoubleStored? && v == Dbl(s.d)
    case BinaryDoubleKind => s.DoubleStored? && v == Dbl(s.d)
    case DateKind => s.InstantStored? && s.nanos % 1000 == 0 && v == Time(s.nanos / 1000)
    case TimestampKind => s.InstantStored? && s.nanos % 1000 == 0 && v == Time(s.nanos / 1000)
    case CharKind => s.TextStored? && v == Str(s.text)
    case _ => true
  }

  lemma MicrosLeft(nanos: int, p: nat)
    requires p <= 6 && nanos % Pow10(9 - p) == 0
    ensures nanos % 1000 == 0
  {
    hide Pow;
    var q := nanos / Pow10(9 - p);
    PowAdd(10, 3, 6 - p);
    assert Pow10(3) == 1000 by { PowSmall(); }
    assert Pow10(9 - p) == 1000 * Pow10(6 - p);
    assert nanos == q * (1000 * Pow10(6 - p));
    MulAssoc(q, 1000, Pow10(6 - p));
    MulAssoc(1000, q, Pow10(6 - p));
    assert nanos == 1000 * (q * Pow10(6 - p));
    DivModUnique(nanos, 1000, q * Pow10(6 - p), 0);
  }

  lemma PowSmall()
    ensures Pow10(3) == 1000
  {
    assert Pow(10, 3) == 1000;
  }

  lemma KindStored(c: OracleColumn, other: Database, s: Stored)
    requires Stores(c, s)
    ensures ReadAs(KindOf(c), s, ReadValue(c, other.numbers, other.nearest, s))
  {
    hide Stores, ReadValue, KindOf, ReadAs;
    KindNames(c);
    match KindOf(c)
    case NumberKind => NumberStoredAs(c, other, s);
    case TimestampKind => TimestampStored(c, other, s);
    case LobKind => NothingRead(c, other, s);
    case OtherKind => NothingRead(c, other, s);
    case _ => NamedStored(c, other, s);
  }

  lemma KindNames(c: OracleColumn)
    ensures KindOf(c) == NumberKind ==> c.dataType == "NUMBER"
    ensures KindOf(c) == TimestampKind ==>
              "TIMESTAMP" <= c.dataType && !Contains(c.dataType, "WITH") && TimestampPrecision(c.dataType) <= 6
    ensures KindOf(c) == DateKind ==> c.dataType == "DATE"
    ensures KindOf(c) == BinaryFloatKind ==> c.dataType == "BINARY_FLOAT"
    ensures KindOf(c) == BinaryDoubleKind ==> c.dataType == "BINARY_DOUBLE"
    ensures KindOf(c) == CharKind ==> c.dataType in {"VARCHAR2", "NVARCHAR2", "CHAR", "NCHAR"}
  {
    hide Contains, TimestampPrecision, TypeMap.PlanNumber;
  }

  lemma NothingRead(c: OracleColumn, other: Database, s: Stored)
    requires KindOf(c) == LobKind || KindOf(c) == OtherKind
    ensures ReadAs(KindOf(c), s, ReadValue(c, other.numbers, other.nearest, s))
  {
    hide KindOf, ReadValue;
  }

  lemma NamedStored(c: OracleColumn, other: Database, s: Stored)
    requires KindOf(c) in {BinaryFloatKind, BinaryDoubleKind, DateKind, CharKind} && Stores(c, s)
    ensures ReadAs(KindOf(c), s, ReadValue(c, other.numbers, other.nearest, s))
  {
    hide Pow10, IsTimestampName, ReadNumber, TypeMap.Storable, KindOf;
    KindNames(c);
    OtherNames(c.dataType);
    if s.InstantStored? { WholeMicros(s.nanos); }
  }

  lemma WholeMicros(nanos: int)
    requires nanos % NANOS_PER_SECOND == 0
    ensures nanos % 1000 == 0
  {
    assert nanos == 1000 * (1_000_000 * (nanos / NANOS_PER_SECOND));
  }

  lemma StoredPrecision(c: OracleColumn, s: Stored) returns (p: nat)
    requires s.InstantStored? && c.dataType != "DATE" && Stores(c, s)
    ensures p <= 9 && IsTimestampName(c.dataType, p, NO_ZONE) && s.nanos % Pow10(9 - p) == 0
  {
    hide Decimal, Pow10;
    p :| IsTimestampName(c.dataType, p, NO_ZONE) && s.nanos % Pow10(9 - p) == 0;
  }

  /** A TIMESTAMP that comparisons are pushed for has no zone and nothing below a microsecond. */
  lemma TimestampStored(c: OracleColumn, other: Database, s: Stored)
    requires KindOf(c) == TimestampKind && Stores(c, s)
    ensures ReadAs(TimestampKind, s, ReadValue(c, other.numbers, other.nearest, s))
  {
    hide Contains, TimestampPrecision, Pow10, TypeMap.Storable, ReadNumber, IsTimestampName, KindOf;
    KindNames(c);
    assert |c.dataType| >= 9 && c.dataType[0] == 'T';
    if s.ZonedStored? {
      var p: nat :| IsTimestampName(c.dataType, p, TIME_ZONE) || IsTimestampName(c.dataType, p, LOCAL_TIME_ZONE);
      ZonedName(c.dataType, p, if IsTimestampName(c.dataType, p, TIME_ZONE) then TIME_ZONE else LOCAL_TIME_ZONE);
    } else {
      var p := StoredPrecision(c, s);
      TimestampName(c.dataType, p);
      MicrosLeft(s.nanos, p);
    }
  }

  /** A NUMBER that comparisons are pushed for is not read as a double, nor rounded. */
  lemma NumberStoredAs(c: OracleColumn, other: Database, s: Stored)
    requires KindOf(c) == NumberKind && Stores(c, s)
    ensures ReadAs(NumberKind, s, ReadValue(c, other.numbers, other.nearest, s))
  {
    hide Pow10, IsTimestampName, ReadValue, TypeMap.Storable, NumberOrder;
    OtherNames(c.dataType);
    NumberIsRead(c, other.numbers, other.nearest, s.n);
  }

  ghost predicate NamesFit(columns: seq<OracleColumn>) {
    && (forall i :: 0 <= i < |columns| ==> QuoteFree(columns[i].name))
    && (forall i, j :: 0 <= i < j < |columns| ==> columns[i].name != columns[j].name)
  }

  /** Decimal constants have a scale that DuckDB's DECIMAL can have. */
  predicate ConstantFits(k: FilterConstant) {
    k.DecimalConstant? ==> k.scale <= 38
  }

  ghost predicate NodeFits(node: FilterNode) {
    && (forall i :: 0 <= i < |node.constants| ==> ConstantFits(node.constants[i]))
    && (forall i :: 0 <= i < |node.children| ==> NodeFits(node.children[i]))
  }

  lemma NumberOperand(x: OracleNumber.Number, v: int, scale: uint8)
    requires x.Finite? && -TWO127 <= v < TWO127 && scale <= 38
    ensures var m := OracleNumber.Meaning(BindOf(v, scale).bytes);
            m.Success? && m.value.Finite?
            && NumberOrder(x, m.value) == NumberOrder(x, OracleNumber.Finite(v < 0, Abs(v), 0 - scale))
  {
    hide NumberOrder, Encode, OracleNumber.Meaning;
    BoundNumber(Abs(v), v < 0, scale);
    var m := OracleNumber.Meaning(Encode(Abs(v), v < 0, scale)).value;
    EqualNumbers(m, OracleNumber.Finite(v < 0, Abs(v), 0 - scale), x);
  }

  /** The operand has the value of the constant: every comparison with it comes out the same. */
  lemma OperandSound(info: ColumnInfo, charset: string, op: FilterOp, k: FilterConstant, s: Stored, v: Value,
                     binds: seq<BindValue>, n: nat)
    requires OperandOf(info, charset, op, k).Some? && ReadAs(info.kind, s, v) && ConstantFits(k)
    requires 1 <= n <= |binds| && binds[n - 1] == OperandOf(info, charset, op, k).value.bind
    ensures var e := OperandValue(SlotFor(OperandOf(info, charset, op, k).value, n), binds);
            && e.Got? && Order(v, e.value) == Order(v, ConstantValue(k)) && Order(v, e.value).Some?
            && (v.Str? ==> e.value.Str? && k.StringConstant? && e.value.text == k.text
                            && ExactText(info, charset, k.text)
                            && (IsRange(op) ==> IsAl32Utf8(charset) && !info.national))
  {
    hide NumberOrder, TextOrder, DoubleOrder, BindOf, OracleNumber.Meaning, EncodedDate, DateMicros, DateExists,
         ReadDateTime, DateTimeText, CivilFromDays;
    match info.kind
    case NumberKind =>
      if k.IntegerConstant? { NumberOperand(v.n, k.i64, 0); } else { NumberOperand(v.n, k.i128.Value(), k.scale); }
    case DateKind => DateRoundTrip(ConstantMicros(k).value);
    case TimestampKind => DateTimeRoundTrip(ConstantMicros(k).value);
    case _ =>
  }

  /** Comparing bytes is comparing code points: for ranges in AL32UTF8, where both orders agree, and for equality in
      every character set, as far as it has the bound text. */
  lemma TextsSound(c: OracleColumn, charset: string, other: Database, op: Op, v: string, b: string)
    requires KindOf(c) == CharKind && ExactText(Classify(c), charset, b)
    requires IsRange(CompareOp(op)) ==> IsAl32Utf8(charset) && !Classify(c).national
    ensures TextHolds(c, charset, other, op, v, b) == Satisfies(op, TextOrder(v, b))
  {
    hide Charsets.Encode, Charsets.ByteOrder, TextOrder, Classify, KindOf, IsBinary, IsNational, DatabaseCharset,
         IsAl32Utf8, IsUtf8Charset;
    CharsetNames(charset, other);
    CollationNames(c);
    if IsRange(CompareOp(op)) {
      Charsets.Utf8Order(v, b);
    } else {
      Charsets.SameBytes(CharsetOf(c, charset, other), v, b);
      TextOrderZero(v, b);
    }
  }

  /** In other Unicode character sets ranges are not those of code points: a text that only the character set keeps
      from being pushed. */
  lemma RangesDiffer(c: OracleColumn, charset: string, other: Database)
    requires KindOf(c) == CharKind && IsBinary(c)
    requires !DatabaseCharset(charset, other).AsciiBased? && !CharsetOf(c, charset, other).Utf8?
    ensures var v, b := [0xFFFD as char], [0x1_0000 as char];
            && ExactText(Classify(c), charset, b)
            && TextHolds(c, charset, other, Lt, v, b) != Satisfies(Lt, TextOrder(v, b))
  {
    hide Charsets.ByteOrder, TextOrder, Classify, KindOf, IsBinary, DatabaseCharset, IsAl32Utf8, IsUtf8Charset;
    CharsetNames(charset, other);
    CollationNames(c);
    Charsets.OtherOrder(CharsetOf(c, charset, other));
    Charsets.OneChar(0x1_0000 as char);
  }

  /** Oracle compares what is stored with the constant as DuckDB compares what it has read. */
  lemma StoredSound(c: OracleColumn, charset: string, other: Database, op: FilterOp, o: Op, k: FilterConstant,
                    s: Stored, v: Value, binds: seq<BindValue>, n: nat)
    requires OperandOf(Classify(c), charset, op, k).Some? && ReadAs(KindOf(c), s, v) && ConstantFits(k)
    requires 1 <= n <= |binds| && binds[n - 1] == OperandOf(Classify(c), charset, op, k).value.bind
    requires op == CompareOp(o) || (op == InOp && o == Eq)
    ensures Order(v, ConstantValue(k)).Some?
    ensures var e := OperandValue(SlotFor(OperandOf(Classify(c), charset, op, k).value, n), binds);
            e.Got? && CompareStored(c, charset, other, o, s, e.value) == CompareMeaning(o, v, k)
  {
    hide OperandOf, OperandValue, SlotFor, ExactText, Satisfies, IsAl32Utf8, ConstantValue, TextHolds, TextOrder,
         DoubleOrder, NumberOrder;
    OperandSound(Classify(c), charset, op, k, s, v, binds, n);
    OperandKinds(Classify(c), charset, op, k);
    var b := OperandValue(SlotFor(OperandOf(Classify(c), charset, op, k).value, n), binds).value;
    match v
    case Num(_) => EqualNumbers(v.n, s.n, b.n); Swapped(v.n, s.n, b.n);
    case Str(_) => TextsSound(c, charset, other, o, s.text, b.text);
    case Time(micros) => NanosAndMicros(s.nanos, b.micros);
    case _ =>
  }

  lemma OperandKinds(info: ColumnInfo, charset: string, op: FilterOp, k: FilterConstant)
    requires OperandOf(info, charset, op, k).Some?
    ensures !info.kind.LobKind? && !info.kind.OtherKind?
  {}

  lemma Swapped(a: OracleNumber.Number, b: OracleNumber.Number, x: OracleNumber.Number)
    requires a.Finite? && b.Finite? && x.Finite? && NumberOrder(x, a) == NumberOrder(x, b)
    ensures NumberOrder(a, x) == NumberOrder(b, x)
  {
    hide Units;
  }

  lemma NanosAndMicros(nanos: int, micros: int)
    requires nanos % 1000 == 0
    ensures Sign(nanos - micros * 1000) == Sign(nanos / 1000 - micros)
  {}

  lemma CompareSound(c: OracleColumn, charset: string, other: Database, op: FilterOp, o: Op, k: FilterConstant,
                     s: Option<Stored>, binds: seq<BindValue>, n: nat)
    requires OperandOf(Classify(c), charset, op, k).Some? && (s.Some? ==> Stores(c, s.value)) && ConstantFits(k)
    requires 1 <= n <= |binds| && binds[n - 1] == OperandOf(Classify(c), charset, op, k).value.bind
    requires op == CompareOp(o) || (op == InOp && o == Eq)
    ensures OperandTruth(c, charset, other, o, s,
                         OperandValue(SlotFor(OperandOf(Classify(c), charset, op, k).value, n), binds))
         == if s == None then Unknown
            else CompareMeaning(o, ReadValue(c, other.numbers, other.nearest, s.value), k)
    ensures s.Some? ==> Order(ReadValue(c, other.numbers, other.nearest, s.value), ConstantValue(k)).Some?
  {
    hide OperandOf, OperandValue, SlotFor, ConstantValue, CompareStored, CompareMeaning, ReadAs, Stores, ReadValue,
         Order;
    assert Classify(c).kind == KindOf(c);
    if s.Some? {
      var v := ReadValue(c, other.numbers, other.nearest, s.value);
      KindStored(c, other, s.value);
      StoredSound(c, charset, other, op, o, k, s.value, v, binds, n);
    } else {
      OperandBound(Classify(c), charset, op, k, binds, n);
    }
  }

  /** An operand is never an error. */
  lemma OperandBound(info: ColumnInfo, charset: string, op: FilterOp, k: FilterConstant, binds: seq<BindValue>, n: nat)
    requires OperandOf(info, charset, op, k).Some? && ConstantFits(k)
    requires 1 <= n <= |binds| && binds[n - 1] == OperandOf(info, charset, op, k).value.bind
    ensures OperandValue(SlotFor(OperandOf(info, charset, op, k).value, n), binds).Got?
  {
    hide OperandOf, OperandValue, SlotFor;
    var (s, v) := match info.kind
      case NumberKind => (NumberStored(OracleNumber.Finite(false, 0, 0)), Num(OracleNumber.Finite(false, 0, 0)))
      case BinaryFloatKind => (DoubleStored(NaN), Dbl(NaN))
      case BinaryDoubleKind => (DoubleStored(NaN), Dbl(NaN))
      case CharKind => (TextStored(""), Str(""))
      case _ => (InstantStored(0), Time(0));
    OperandSound(info, charset, op, k, s, v, binds, n);
  }

  /** CAST(column AS DATE) = d is the range [d, d + 1). */
  lemma DayRangeSound(column: string, c: OracleColumn, charset: string, other: Database, days: int, s: Option<Stored>,
                      binds: seq<BindValue>, lo: nat, hi: nat, bind: BindValue)
    requires s.Some? ==> s.value.InstantStored?
    requires days < 2932896 && BindOfDate(days * MICROS_PER_DAY) == Some(bind)
    requires 1 <= lo <= |binds| && 1 <= hi <= |binds| && binds[lo - 1] == bind && binds[hi - 1] == bind
    ensures LeafTruth(DayRange(column, lo, hi), binds, c, charset, other, s)
         == if s == None then Unknown else Of(s.value.nanos / 1000 / MICROS_PER_DAY == days)
  {
    hide EncodedDate, DateMicros, DateExists, DateTimeText, CivilFromDays;
    DateRoundTrip(days * MICROS_PER_DAY);
    DivModUnique(days * MICROS_PER_DAY, MICROS_PER_SECOND, days * 86400, 0);
    if s.Some? {
      WithinDay(s.value.nanos / 1000, days);
      AtMicros(s.value.nanos, days * MICROS_PER_DAY);
      AtMicros(s.value.nanos, days * MICROS_PER_DAY + MICROS_PER_DAY);
    }
  }

  lemma AtMicros(nanos: int, micros: int)
    ensures nanos / 1000 >= micros <==> nanos - micros * 1000 >= 0
  {}

  lemma WithinDay(micros: int, days: int)
    ensures micros / MICROS_PER_DAY == days
       <==> days * MICROS_PER_DAY <= micros < days * MICROS_PER_DAY + MICROS_PER_DAY
  {}

  lemma LastDay()
    ensures DaysFromCivil(Date(9999, 12, 31)) == 2932896
  {
    Bounds();
  }

  /** The operands of an IN list, each with its bind. */
  lemma {:induction false} ListOperands(info: ColumnInfo, charset: string, constants: seq<FilterConstant>, i: nat,
                                        first: nat, j: nat)
    requires j < i <= |constants| && TranslateList(info, charset, constants, i, first).Some?
    ensures var list, bound := TranslateList(info, charset, constants, i, first).value,
                               OperandOf(info, charset, InOp, constants[j]);
            bound.Some? && list.binds[j] == bound.value.bind && list.sql[j] == SlotFor(bound.value, first + j + 1)
  {
    hide OperandOf, SlotFor;
    if j < i - 1 { ListOperands(info, charset, constants, i - 1, first, j); }
  }

  lemma InListSound(column: string, c: OracleColumn, charset: string, other: Database, constants: seq<FilterConstant>,
                    s: Option<Stored>, binds: seq<BindValue>, first: nat)
    requires TranslateList(Classify(c), charset, constants, |constants|, first).Some?
    requires 0 < |constants| <= MAX_IN_LIST && (s.Some? ==> Stores(c, s.value))
    requires forall j :: 0 <= j < |constants| ==> ConstantFits(constants[j])
    requires var list := TranslateList(Classify(c), charset, constants, |constants|, first).value;
             first + |list.binds| <= |binds| && binds[first..first + |list.binds|] == list.binds
    ensures LeafTruth(InList(column, TranslateList(Classify(c), charset, constants, |constants|, first).value.sql),
                      binds, c, charset, other, s)
         == if s == None then Unknown
            else Of(IsMember(ReadValue(c, other.numbers, other.nearest, s.value), constants))
  {
    hide OperandOf, SlotFor, OperandTruth, OperandValue, ConstantFits, Order, TranslateList, ConstantValue, LeafTruth,
         Classify, ReadValue, Stores;
    var info, list := Classify(c), TranslateList(Classify(c), charset, constants, |constants|, first).value;
    var truths := seq(|list.sql|, j requires 0 <= j < |list.sql| =>
                                    OperandTruth(c, charset, other, Eq, s, OperandValue(list.sql[j], binds)));
    var v := if s == None then Opaque else ReadValue(c, other.numbers, other.nearest, s.value);
    forall j | 0 <= j < |constants|
      ensures truths[j] == if s == None then Unknown else Of(Order(v, ConstantValue(constants[j])) == Some(0))
    {
      ListOperands(info, charset, constants, |constants|, first, j);
      assert binds[first..first + |list.binds|][j] == binds[first + j];
      CompareSound(c, charset, other, InOp, Eq, constants[j], s, binds, first + j + 1);
      if s.Some? { MemberTest(constants[j], v); }
    }
    InListTruth(column, list.sql, truths, binds, c, charset, other, s);
    if s == None {
      assert truths[0] == Unknown && forall t <- truths :: t == Unknown;
    } else {
      OrOfTests(truths, seq(|constants|, j requires 0 <= j < |constants| =>
                                           Order(v, ConstantValue(constants[j])) == Some(0)));
    }
  }

  lemma InListTruth(column: string, operands: seq<Operand>, truths: seq<Truth>, binds: seq<BindValue>, c: OracleColumn,
                    charset: string, other: Database, s: Option<Stored>)
    requires |truths| == |operands| <= MAX_IN_LIST
    requires forall j :: 0 <= j < |operands| ==>
               truths[j] == OperandTruth(c, charset, other, Eq, s, OperandValue(operands[j], binds))
    ensures LeafTruth(InList(column, operands), binds, c, charset, other, s) == Or(truths)
  {
    hide OperandTruth, OperandValue, Or;
    assert truths == seq(|operands|, i requires 0 <= i < |operands| =>
                                       OperandTruth(c, charset, other, Eq, s, OperandValue(operands[i], binds)));
  }

  lemma MemberTest(k: FilterConstant, v: Value)
    requires Order(v, ConstantValue(k)).Some?
    ensures CompareMeaning(Eq, v, k) == Of(Order(v, ConstantValue(k)) == Some(0))
  {
    hide Order, ConstantValue;
  }

  lemma OrOfTests(truths: seq<Truth>, tests: seq<bool>)
    requires |truths| == |tests| && forall i :: 0 <= i < |tests| ==> truths[i] == Of(tests[i])
    ensures Or(truths) == Of(exists i :: 0 <= i < |tests| && tests[i])
  {
    if i :| 0 <= i < |tests| && tests[i] { assert truths[i] == True; }
  }

  /** Looking a column up by its name finds it. */
  lemma LookupFinds(columns: seq<OracleColumn>, i: nat)
    requires i < |columns| && NamesFit(columns)
    ensures Lookup(columns, columns[i].name) == i
  {
    var k := Lookup(columns, columns[i].name);
    assert !(k < i);
  }

  /** Where the binds of a translation are in the binds of a statement. */
  ghost predicate Placed(binds: seq<BindValue>, first: nat, part: seq<BindValue>) {
    first + |part| <= |binds| && binds[first..first + |part|] == part
  }

  lemma PlacedAt(binds: seq<BindValue>, first: nat, part: seq<BindValue>, i: nat)
    requires Placed(binds, first, part) && i < |part|
    ensures first + i + 1 <= |binds| && binds[first + i] == part[i]
  {
    assert binds[first..first + |part|][i] == binds[first + i];
  }

  lemma PlacedParts(binds: seq<BindValue>, first: nat, left: seq<BindValue>, right: seq<BindValue>)
    requires Placed(binds, first, left + right)
    ensures Placed(binds, first, left) && Placed(binds, first + |left|, right)
  {
    var all := binds[first..first + |left + right|];
    assert all[..|left|] == left && all[|left|..] == right;
  }

  lemma LeafSound(node: FilterNode, columns: seq<OracleColumn>, charset: string, first: nat, binds: seq<BindValue>,
                  other: Database, row: StoredRow)
    requires TranslateLeaf(node, columns, charset, first).Some? && !node.op.AndOp? && !node.op.OrOp?
    requires NodeFits(node) && RowStored(columns, row) && NamesFit(columns)
    requires Placed(binds, first, TranslateLeaf(node, columns, charset, first).value.binds)
    ensures Eval(TranslateLeaf(node, columns, charset, first).value.sql, binds, columns, charset, other, row)
         == LeafMeaning(node, ReadRow(columns, other, row))
  {
    hide OperandOf, OperandValue, OperandTruth, SlotFor, TranslateList, Order, BindOfDate, NodeFits, NamesFit,
         ConstantFits, LeafTruth, CompareMeaning, IsMember, ReadRow, ReadValue, Stores, KindOf;
    var column := columns[node.column];
    var built, s := TranslateLeaf(node, columns, charset, first).value, row[node.column];
    LookupFinds(columns, node.column);
    ReadRowAt(columns, other, row, node.column);
    match node.op
    case CompareOp(op) =>
      PlacedAt(binds, first, built.binds, 0);
      NodeConstant(node, 0);
      CompareSound(column, charset, other, node.op, op, node.constants[0], s, binds, first + 1);
      CompareTruth(built.sql, binds, column, charset, other, s);
    case InOp =>
      forall j | 0 <= j < |node.constants| ensures ConstantFits(node.constants[j]) { NodeConstant(node, j); }
      InListSound(column.name, column, charset, other, node.constants, s, binds, first);
    case DateEqOp =>
      PlacedAt(binds, first, built.binds, 0);
      PlacedAt(binds, first, built.binds, 1);
      LastDay();
      if s.Some? {
        KindStored(column, other, s.value);
        DateRead(column, other, s.value);
      }
      DayRangeSound(column.name, column, charset, other, node.constants[0].days, s, binds, first + 1, first + 2,
                    built.binds[0]);
    case IsNullOp => NullTruth(built.sql, binds, column, charset, other, s);
    case IsNotNullOp => NullTruth(built.sql, binds, column, charset, other, s);
  }

  lemma DateRead(c: OracleColumn, other: Database, s: Stored)
    requires s.InstantStored?
    ensures ReadValue(c, other.numbers, other.nearest, s) == Time(s.nanos / 1000)
  {}

  lemma NodeConstant(node: FilterNode, i: nat)
    requires NodeFits(node) && i < |node.constants|
    ensures ConstantFits(node.constants[i])
  {}

  lemma NullTruth(c: Cond, binds: seq<BindValue>, column: OracleColumn, charset: string, other: Database,
                  v: Option<Stored>)
    requires c.NullTest?
    ensures LeafTruth(c, binds, column, charset, other, v) == Of((v == None) == c.isNull)
  {}

  lemma CompareTruth(c: Cond, binds: seq<BindValue>, column: OracleColumn, charset: string, other: Database,
                     v: Option<Stored>)
    requires c.Compare?
    ensures LeafTruth(c, binds, column, charset, other, v)
         == OperandTruth(column, charset, other, c.op, v, OperandValue(c.operand, binds))
  {}

  /** The children of a node, each with its part of the binds. */
  lemma {:induction false} ChildPart(node: FilterNode, columns: seq<OracleColumn>, charset: string, i: nat, first: nat,
                                     binds: seq<BindValue>, j: nat) returns (childFirst: nat)
    requires j < i <= |node.children| && TranslateChildren(node, columns, charset, i, first).Some?
    requires Placed(binds, first, TranslateChildren(node, columns, charset, i, first).value.binds)
    ensures var child := TranslateNode(node.children[j], columns, charset, childFirst);
            && child.Some? && Placed(binds, childFirst, child.value.binds)
            && child.value.sql == TranslateChildren(node, columns, charset, i, first).value.sql[j]
    decreases i
  {
    hide TranslateNode, Placed;
    var left := TranslateChildren(node, columns, charset, i - 1, first).value;
    var last := TranslateNode(node.children[i - 1], columns, charset, first + |left.binds|).value;
    PlacedParts(binds, first, left.binds, last.binds);
    if j < i - 1 {
      childFirst := ChildPart(node, columns, charset, i - 1, first, binds, j);
    } else {
      childFirst := first + |left.binds|;
    }
  }

  /** A filter that is translated means the same in Oracle, for what a row stores, as in DuckDB, for what it reads of
      the row, NULLs included. */
  lemma {:induction false} TranslationSound(node: FilterNode, columns: seq<OracleColumn>, charset: string, first: nat,
                                            binds: seq<BindValue>, other: Database, row: StoredRow)
    requires TranslateNode(node, columns, charset, first).Some?
    requires NodeFits(node) && RowStored(columns, row) && NamesFit(columns)
    requires Placed(binds, first, TranslateNode(node, columns, charset, first).value.binds)
    ensures Eval(TranslateNode(node, columns, charset, first).value.sql, binds, columns, charset, other, row)
         == Meaning(node, ReadRow(columns, other, row))
    decreases node
  {
    hide TranslateLeaf, TranslateChildren, LeafMeaning, LeafTruth, RowStored, NamesFit, Placed, Classify, ReadRow;
    RowLength(columns, row);
    var read := ReadRow(columns, other, row);
    if node.op.AndOp? || node.op.OrOp? {
      var n := |node.children|;
      var all := TranslateChildren(node, columns, charset, n, first).value;
      var truths := seq(n, i requires 0 <= i < n => Eval(all.sql[i], binds, columns, charset, other, row));
      var meanings := seq(n, i requires 0 <= i < n => Meaning(node.children[i], read));
      forall j | 0 <= j < n
        ensures truths[j] == meanings[j]
      {
        var childFirst := ChildPart(node, columns, charset, n, first, binds, j);
        TranslationSound(node.children[j], columns, charset, childFirst, binds, other, row);
      }
      assert truths == meanings;
      JunctionTruth(node.op.AndOp?, all.sql, truths, binds, columns, charset, other, row);
      NodeMeaning(node, meanings, read);
    } else {
      LeafSound(node, columns, charset, first, binds, other, row);
      LeafNodeMeaning(node, read);
    }
  }

  lemma RowLength(columns: seq<OracleColumn>, row: StoredRow)
    requires RowStored(columns, row)
    ensures |row| == |columns|
  {}

  lemma LeafNodeMeaning(node: FilterNode, row: Row)
    requires !node.op.AndOp? && !node.op.OrOp?
    ensures Meaning(node, row) == LeafMeaning(node, row)
  {}

  lemma NodeMeaning(node: FilterNode, meanings: seq<Truth>, row: Row)
    requires node.op.AndOp? || node.op.OrOp?
    requires |meanings| == |node.children|
    requires forall i :: 0 <= i < |meanings| ==> meanings[i] == Meaning(node.children[i], row)
    ensures Meaning(node, row) == if node.op.AndOp? then And(meanings) else Or(meanings)
  {
    hide LeafMeaning, And, Or;
    assert meanings == seq(|node.children|, i requires 0 <= i < |node.children| => Meaning(node.children[i], row));
  }

  /** A node with one child is written as the child in brackets, which means the same. */
  lemma JunctionTruth(isAnd: bool, children: seq<Cond>, truths: seq<Truth>, binds: seq<BindValue>,
                      columns: seq<OracleColumn>, charset: string, other: Database, row: StoredRow)
    requires |row| == |columns| && |children| == |truths| > 0
    requires forall i :: 0 <= i < |truths| ==> truths[i] == Eval(children[i], binds, columns, charset, other, row)
    ensures Eval(if |children| == 1 then Group(children[0]) else Junction(isAnd, children), binds, columns, charset,
                 other, row)
         == if isAnd then And(truths) else Or(truths)
  {
    hide LeafTruth, Classify;
    if |children| == 1 {
      assert truths == [truths[0]];
    } else {
      assert truths == seq(|children|, i requires 0 <= i < |children| =>
                                         Eval(children[i], binds, columns, charset, other, row));
    }
  }
}
