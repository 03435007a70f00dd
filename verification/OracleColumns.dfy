/** The columns of an Oracle table: what each type, by the name that the dictionary gives it, can store, and the value
    that DuckDB reads of it. */
module OracleColumns {
  import opened Digits
  import opened OracleNumber
  import opened Numerals
  import opened NumberText
  import opened NumberBinds
  import opened FilterValues
  import TypeMap

  datatype OracleColumn = OracleColumn(
    name: string,
    dataType: string,
    precision: int,
    scale: int,
    national: bool,
    collation: string)

  /** A value in a column. Instants are nanoseconds since 1970-01-01 00:00:00, of the local time when there is no zone
      and of UTC when there is one; zones are minutes east of UTC. */
  datatype Stored =
    | NumberStored(n: Number)
    | DoubleStored(d: FilterValues.Double)
    | InstantStored(nanos: int)
    | ZonedStored(nanos: int, zone: int)
    | TextStored(text: string)
    | LobStored(text: string)
    | OtherStored

  const NANOS_PER_SECOND: nat := 1_000_000_000

  /** TIMESTAMP(p), or without a precision, which means 6. */
  predicate IsTimestampName(name: string, p: nat, zone: string) {
    p <= 9 && (name == "TIMESTAMP(" + Decimal(p) + ")" + zone || (p == 6 && name == "TIMESTAMP" + zone))
  }

  const NO_ZONE: string := ""
  const TIME_ZONE: string := " WITH TIME ZONE"
  const LOCAL_TIME_ZONE: string := " WITH LOCAL TIME ZONE"

  predicate SameLetter(c: char, d: char) {
    c == d || ('a' <= c <= 'z' && d == c - 'a' + 'A') || ('a' <= d <= 'z' && c == d - 'a' + 'A')
  }

  /** Equal names but for the case of letters. */
  predicate SameName(s: string, t: string) {
    |s| == |t| && forall i :: 0 <= i < |s| ==> SameLetter(s[i], t[i])
  }

  /** The column can hold the value. */
  ghost predicate Stores(c: OracleColumn, s: Stored) {
    match s
    case NumberStored(n) =>
      || c.dataType == "FLOAT"
      || (c.dataType == "NUMBER"
          && c.precision <= 38
          && ((c.precision >= 0 || c.scale >= 0) ==>
                TypeMap.Storable(n, if c.precision > 0 then c.precision else 38, c.scale)))
    case DoubleStored(_) => c.dataType == "BINARY_FLOAT" || c.dataType == "BINARY_DOUBLE"
    case InstantStored(nanos) =>
      || (c.dataType == "DATE" && nanos % NANOS_PER_SECOND == 0)
      || exists p: nat :: IsTimestampName(c.dataType, p, NO_ZONE) && nanos % Pow10(9 - p) == 0
    case ZonedStored(_, _) =>
      exists p: nat :: IsTimestampName(c.dataType, p, TIME_ZONE) || IsTimestampName(c.dataType, p, LOCAL_TIME_ZONE)
    case TextStored(text) => c.dataType in {"VARCHAR2", "CHAR", "NVARCHAR2", "NCHAR"} && text != ""
    case LobStored(_) => c.dataType in {"CLOB", "NCLOB", "BLOB"}
    case OtherStored => c.dataType !in {"NUMBER", "FLOAT", "BINARY_FLOAT", "BINARY_DOUBLE", "DATE", "VARCHAR2", "CHAR",
                                        "NVARCHAR2", "NCHAR", "CLOB", "NCLOB", "BLOB"}
                        && !(|c.dataType| >= 9 && SameName(c.dataType[..9], "TIMESTAMP"))
  }

  // What DuckDB reads

  /** The integer v as the value v * 10^-scale; another value when the decoder reports an error. */
  function DecimalValue(d: Decoded, scale: nat): Value {
    match d
    case Exactly(v) => Num(Finite(v < 0, Abs(v), 0 - scale))
    case _ => Opaque
  }

  /** A NUMBER under the plan of its column; `nearest` is Oracle's conversion to a double. */
  function ReadNumber(plan: TypeMap.NumberPlan, nearest: Number -> FilterValues.Double, n: Number): Value {
    match plan
    case NativeInteger(t) => DecimalValue(TypeMap.ReadInteger(n, t), 0)
    case Decimal(width, scale, round) => DecimalValue(TypeMap.ReadDecimal(n, width, scale, round), scale)
    case Double => Dbl(nearest(n))
    case Varchar => Str(TextOf(n))
  }

  /** `numbers` is the setting for columns without precision and scale. Nanoseconds are cut to microseconds. */
  function ReadValue(c: OracleColumn, numbers: TypeMap.Unconstrained, nearest: Number -> FilterValues.Double, s: Stored)
      : Value
  {
    match s
    case NumberStored(n) =>
      ReadNumber(TypeMap.PlanNumber(c.precision, c.scale, c.dataType == "FLOAT", numbers), nearest, n)
    case DoubleStored(d) => Dbl(d)
    case InstantStored(nanos) => Time(nanos / 1000)
    case ZonedStored(nanos, _) => Time(nanos / 1000)
    case TextStored(text) => Str(text)
    case LobStored(text) => Str(text)
    case OtherStored => Opaque
  }

  /** The same whole number of units of 10^-scale. */
  lemma SameUnits(n: Number, scale: int)
    requires n.Finite? && Whole10(n.mantissa, n.exponent + scale)
    ensures var v := TypeMap.SignedMagnitude(n, Floor10(n.mantissa, n.exponent + scale));
            NumberOrder(Finite(v < 0, Abs(v), 0 - scale), n) == 0
  {
    hide Pow, Pow10;
    var k, e := Floor10(n.mantissa, n.exponent + scale), n.exponent + scale;
    var v := TypeMap.SignedMagnitude(n, k);
    var r := Finite(v < 0, Abs(v), 0 - scale);
    if e >= 0 {
      assert LowOf(r, n) == 0 - scale;
      Units0(r, n, k, e);
    } else {
      var d := Pow10(-e);
      DivMod(n.mantissa, d);
      assert n.mantissa == k * d;
      assert LowOf(r, n) == n.exponent;
      UnitsBelow(r, n, k, -e);
    }
  }

  lemma Units0(r: Number, n: Number, k: nat, e: nat)
    requires n.Finite? && r.Finite? && r.mantissa == k && (k > 0 ==> r.negative == n.negative)
    requires n.exponent == r.exponent + e && k == n.mantissa * Pow10(e)
    ensures NumberOrder(r, n) == 0
  {
    hide Pow;
    PowSmall();
  }

  lemma UnitsBelow(r: Number, n: Number, k: nat, e: nat)
    requires n.Finite? && r.Finite? && r.mantissa == k && (k > 0 ==> r.negative == n.negative)
    requires r.exponent == n.exponent + e && n.mantissa == k * Pow10(e)
    ensures NumberOrder(r, n) == 0
  {
    hide Pow;
    PowSmall();
  }

  lemma PowSmall()
    ensures Pow10(0) == 1
  {}

  /** A column with precision or scale that is not read as DOUBLE is read exactly. */
  lemma NumberIsRead(c: OracleColumn, numbers: TypeMap.Unconstrained, nearest: Number -> FilterValues.Double, n: Number)
    requires c.dataType == "NUMBER" && Stores(c, NumberStored(n))
    requires !(c.precision < 0 && c.scale < 0) && !TypeMap.PlanNumber(c.precision, c.scale, false, numbers).Double?
    ensures n.Finite?
    ensures var v := ReadValue(c, numbers, nearest, NumberStored(n));
            v.Num? && v.n.Finite? && NumberOrder(v.n, n) == 0
  {
    hide Pow10, NumberOrder, Floor10, Whole10, TypeMap.ReadDecimal, TypeMap.ReadInteger;
    TypeMap.PlanIsExact(n, c.precision, c.scale, numbers);
    match TypeMap.PlanNumber(c.precision, c.scale, false, numbers)
    case NativeInteger(_) => SameUnits(n, 0);
    case Decimal(_, scale, _) => SameUnits(n, scale);
    case _ =>
  }
}
