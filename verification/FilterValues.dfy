/** Values that filters compare, and three-valued logic. */
module FilterValues {
  import opened Machine
  import opened Digits
  import opened OracleNumber
  import opened NumberEncoding
  import opened NumberDecoding
  import opened NumberRoundTrip
  import opened NumberReading
  import opened SqlConditions

  /** Error stands for a statement that Oracle would refuse to run. */
  datatype Truth = True | False | Unknown | Error

  function Of(b: bool): Truth {
    if b then True else False
  }

  function And(ts: seq<Truth>): Truth {
    if Error in ts then Error else if False in ts then False else if Unknown in ts then Unknown else True
  }

  function Or(ts: seq<Truth>): Truth {
    if Error in ts then Error else if True in ts then True else if Unknown in ts then Unknown else False
  }

  /** A floating-point value, ordered as DuckDB and Oracle order it: NaN is the largest. */
  datatype Double = NegInfinity | Real(value: real) | PosInfinity | NaN

  datatype Value = Num(n: Number) | Dbl(d: Double) | Time(micros: int) | Str(text: string) | Opaque

  function Rank(d: Double): int {
    match d
    case NegInfinity => 0
    case Real(_) => 1
    case PosInfinity => 2
    case NaN => 3
  }

  function Sign(x: int): int {
    if x < 0 then -1 else if x > 0 then 1 else 0
  }

  function DoubleOrder(a: Double, b: Double): int {
    if Rank(a) != Rank(b) then Sign(Rank(a) - Rank(b))
    else if a.Real? && b.Real? then (if a.value < b.value then -1 else if a.value > b.value then 1 else 0)
    else 0
  }

  /** Byte order of texts. */
  function TextOrder(a: string, b: string): int {
    if a == "" then (if b == "" then 0 else -1)
    else if b == "" then 1
    else if a[0] < b[0] then -1
    else if a[0] > b[0] then 1
    else TextOrder(a[1..], b[1..])
  }

  lemma {:induction false} TextOrderZero(a: string, b: string)
    ensures TextOrder(a, b) == 0 <==> a == b
  {
    if a != "" && b != "" && a[0] == b[0] {
      TextOrderZero(a[1..], b[1..]);
      assert a == [a[0]] + a[1..] && b == [b[0]] + b[1..];
    }
  }

  /** A finite number in units of 10^low. */
  function Units(n: Number, low: int): int
    requires n.Finite? && low <= n.exponent
  {
    var m := n.mantissa * Pow10(n.exponent - low);
    if n.negative then 0 - m else m
  }

  function LowOf(a: Number, b: Number): int
    requires a.Finite? && b.Finite?
  {
    if a.exponent <= b.exponent then a.exponent else b.exponent
  }

  /** Order of two exact decimals. */
  function NumberOrder(a: Number, b: Number): int
    requires a.Finite? && b.Finite?
  {
    Sign(Units(a, LowOf(a, b)) - Units(b, LowOf(a, b)))
  }

  /** Order of two values of one kind; none for values that are never compared. */
  function Order(a: Value, b: Value): Option<int> {
    match (a, b)
    case (Num(x), Num(y)) => if x.Finite? && y.Finite? then Some(NumberOrder(x, y)) else None
    case (Dbl(x), Dbl(y)) => Some(DoubleOrder(x, y))
    case (Time(x), Time(y)) => Some(Sign(x - y))
    case (Str(x), Str(y)) => Some(TextOrder(x, y))
    case _ => None
  }

  lemma UnitsAt(n: Number, low: int, lower: int)
    requires n.Finite? && lower <= low <= n.exponent
    ensures Units(n, lower) == Units(n, low) * Pow10(low - lower)
  {
    hide Pow, Pow10;
    TimesPow10(n.mantissa, n.exponent - low, low - lower, n.exponent - lower);
    Distribute(0, n.mantissa * Pow10(n.exponent - low), Pow10(low - lower));
  }

  lemma SignTimes(x: int, p: nat)
    requires p > 0
    ensures Sign(x * p) == Sign(x)
  {
    if x > 0 { MulMonotone(1, x, p); }
    if x < 0 { MulMonotone(x, -1, p); }
  }

  /** The order can be read at any common unit. */
  lemma NumberOrderAt(a: Number, b: Number, low: int)
    requires a.Finite? && b.Finite? && low <= a.exponent && low <= b.exponent
    ensures NumberOrder(a, b) == Sign(Units(a, low) - Units(b, low))
  {
    hide Units, Sign, Pow, Pow10;
    var min := LowOf(a, b);
    UnitsAt(a, min, low);
    UnitsAt(b, min, low);
    Distribute(Units(a, min), Units(b, min), Pow10(min - low));
    SignTimes(Units(a, min) - Units(b, min), Pow10(min - low));
  }

  /** Equal numbers compare alike with any other. */
  lemma EqualNumbers(a: Number, b: Number, x: Number)
    requires a.Finite? && b.Finite? && x.Finite? && NumberOrder(a, b) == 0
    ensures NumberOrder(x, a) == NumberOrder(x, b)
  {
    hide Units, NumberOrder;
    var low := if LowOf(a, b) <= x.exponent then LowOf(a, b) else x.exponent;
    NumberOrderAt(a, b, low);
    NumberOrderAt(x, a, low);
    NumberOrderAt(x, b, low);
  }

  /** Zeros moved between mantissa and exponent do not change a number. */
  lemma ShiftedNumber(negative: bool, v: nat, z: nat, e: int)
    ensures NumberOrder(Finite(negative, v * Pow10(z), e), Finite(negative, v, e + z)) == 0
  {
    hide Pow;
    PowSmall();
  }

  lemma OrderTransitive(a: Number, b: Number, c: Number)
    requires a.Finite? && b.Finite? && c.Finite? && NumberOrder(a, b) == 0 && NumberOrder(b, c) == 0
    ensures NumberOrder(a, c) == 0
  {
    hide NumberOrder;
    EqualNumbers(b, c, a);
  }

  lemma OrderSymmetric(a: Number, b: Number)
    requires a.Finite? && b.Finite? && NumberOrder(a, b) == 0
    ensures NumberOrder(b, a) == 0
  {
    hide Units;
  }

  /** The number that a decimal is bound as equals the decimal. */
  lemma BoundNumber(magnitude: nat, negative: bool, scale: nat)
    requires magnitude < TWO128 && scale <= 128 && (negative ==> magnitude > 0)
    ensures var m := Meaning(Encode(magnitude, negative, scale));
            m.Success? && m.value.Finite? && NumberOrder(m.value, Finite(negative, magnitude, 0 - scale)) == 0
  {
    hide Fold, Pow, Pow10, LowDigits, NormalForm, NormalBytes, Meaning, NumberOrder;
    if magnitude == 0 {
      MeaningOfZero();
      ZeroOrder(0 - scale);
      return;
    }
    var n := NormalForm(magnitude, scale);
    var v := Fold(n.pairs, 100);
    NormalPairs(magnitude, scale);
    TwentyPairs(magnitude, scale);
    ExponentBound(magnitude, scale);
    NormalMeaning(n, negative);
    NormalValue(magnitude, scale);
    FoldPositive(n.pairs, 100, 0);
    var t, odd, frac := n.exponent + 1 - |n.pairs| + FractionPairs(scale), scale % 2, FractionPairs(scale);
    assert AlignedMagnitude(magnitude, scale) == magnitude * Pow10(odd) by { PowSmall(); }
    ShiftedNumber(negative, v, 2 * t, -2 * frac);
    ShiftedNumber(negative, magnitude, odd, -2 * frac);
    assert 2 * (n.exponent + 1 - |n.pairs|) == -2 * frac + 2 * t;
    assert -2 * frac + odd == 0 - scale;
    var bound, middle := Finite(negative, v, -2 * frac + 2 * t), Finite(negative, v * Pow10(2 * t), -2 * frac);
    OrderSymmetric(middle, bound);
    OrderTransitive(bound, middle, Finite(negative, magnitude, 0 - scale));
  }

  lemma ZeroOrder(e: int)
    ensures NumberOrder(Finite(false, 0, 0), Finite(false, 0, e)) == 0
  {}

  /** Whether a comparison holds between values that are in this order. */
  predicate Satisfies(op: Op, order: int) {
    match op
    case Eq => order == 0
    case Ne => order != 0
    case Lt => order < 0
    case Le => order <= 0
    case Gt => order > 0
    case Ge => order >= 0
  }

  // Binds

  datatype BindData =
    | NumberData(number: seq<uint8>)
    | DateData(date: seq<uint8>)
    | TextData(chars: string)
    | VarcharData(text: string)
    | DoubleData(f64: Double, shown: string)

  /** A bound value and the literal shown for it. */
  datatype BindValue = BindValue(data: BindData, display: string)
}
