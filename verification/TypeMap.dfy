/** Which DuckDB type a NUMBER column is read as, and that no value of the column is lost on the way. */
module TypeMap {
  import opened Machine
  import opened Digits
  import opened OracleNumber
  import opened NumberReading
  import opened NumberRoundTrip

  datatype IntegerType = Smallint | Integer | Bigint

  datatype NumberPlan =
    | NativeInteger(integerType: IntegerType)
    | Decimal(width: nat, scale: nat, round: bool)
    | Double
    | Varchar

  /** Setting for columns without precision and scale. */
  datatype Unconstrained = AsDouble | AsVarchar | AsDecimal(width: nat, scale: nat)

  predicate IsUnconstrained(precision: int, scale: int, isFloat: bool) {
    isFloat || (precision < 0 && scale < 0)
  }

  /** A precision of the dictionary; NUMBER(*, s) has none and means 38 digits. */
  function Precision(precision: int): nat {
    if precision > 0 then precision else 38
  }

  function PlanNumber(precision: int, scale: int, isFloat: bool, u: Unconstrained): NumberPlan {
    if IsUnconstrained(precision, scale, isFloat) then
      match u
      case AsDouble => Double
      case AsVarchar => Varchar
      case AsDecimal(width, s) => Decimal(width, s, true)
    else
      var p := Precision(precision);
      if scale < 0 then (if p - scale <= 38 then Decimal(p - scale, 0, false) else Double)
      else if scale > p then (if scale <= 38 then Decimal(scale, scale, false) else Double)
      else if scale == 0 && 0 < precision <= 18 then
        NativeInteger(if p <= 4 then Smallint else if p <= 9 then Integer else Bigint)
      else Decimal(p, scale, false)
  }

  /** NUMBER(p, s) holds the integers of fewer than p + 1 digits, times 10^-s. */
  predicate Storable(n: Number, p: nat, s: int) {
    n.Finite? && Whole10(n.mantissa, n.exponent + s) && Floor10(n.mantissa, n.exponent + s) < Pow10(p)
  }

  predicate InType(v: int, t: IntegerType) {
    match t
    case Smallint => -0x8000 <= v < 0x8000
    case Integer => -0x8000_0000 <= v < 0x8000_0000
    case Bigint => -TWO63 <= v < TWO63
  }

  /** What the reader of a decimal column accepts: the 64-bit decoder up to 18 digits, the 128-bit one above, and
      a value of no more digits than the type. */
  function ReadDecimal(n: Number, width: nat, scale: nat, round: bool): Decoded {
    match Scaled(n, scale, round, if width <= 18 then TWO63 else TWO127)
    case Exactly(v) => if 0 - Pow10(width) < v < Pow10(width) then Exactly(v) else Overflow
    case other => other
  }

  /** An integer column fetched as NUMBER bytes. */
  function ReadInteger(n: Number, t: IntegerType): Decoded {
    match Scaled(n, 0, false, TWO63)
    case Exactly(v) => if InType(v, t) then Exactly(v) else Overflow
    case other => other
  }

  /** OCI's conversion of a NUMBER to a 64-bit integer; none when it reports an error. */
  type IntegerConversion = Number -> Option<int>

  /** OCI converts whole numbers that fit 64 bits exactly; of others nothing is known. */
  ghost predicate ConvertsIntegers(convert: IntegerConversion) {
    forall n: Number :: n.Finite? && Whole10(n.mantissa, n.exponent) ==>
      var v := SignedMagnitude(n, Floor10(n.mantissa, n.exponent));
      -TWO63 <= v < TWO63 ==> convert(n) == Some(v)
  }

  /** An integer column fetched as a 64-bit integer, as it is planned. */
  function ReadNative(convert: IntegerConversion, n: Number, t: IntegerType): Option<int> {
    match convert(n)
    case Some(v) => if InType(v, t) then Some(v) else None
    case None => None
  }

  /** A whole number stays whole when it is scaled up. */
  lemma ScaledUp(v: nat, e: int, y: nat)
    requires Whole10(v, e)
    ensures Whole10(v, e + y) && Floor10(v, e + y) == Floor10(v, e) * Pow10(y)
  {
    hide Pow;
    if e >= 0 {
      PowAdd(10, e, y);
      MulAssoc(v, Pow10(e), Pow10(y));
    } else {
      var q, d := v / Pow10(-e), Pow10(-e);
      DivMod(v, d);
      if e + y >= 0 {
        PowAdd(10, -e, e + y);
        MulAssoc(q, d, Pow10(e + y));
      } else {
        PowAdd(10, -(e + y), y);
        var a, b := Pow10(-(e + y)), Pow10(y);
        MulAssoc(q, b, a);
        DivModUnique(v, a, q * b, 0);
      }
    }
  }

  lemma NearestOfWhole(v: nat, e: int)
    requires Whole10(v, e)
    ensures Nearest10(v, e) == Floor10(v, e)
  {
    if e < 0 {
      var d := Pow10(-e);
      DivMod(v, d);
      var q := v / d;
      assert q * (2 * d) == 2 * (q * d) by { MulAssoc(2, q, d); MulAssoc(q, 2, d); }
      DivModUnique(2 * v + d, 2 * d, q, d);
    }
  }

  lemma WidthsFit(width: nat)
    ensures width <= 4 ==> Pow10(width) <= 0x8000
    ensures width <= 9 ==> Pow10(width) <= 0x8000_0000
    ensures width <= 18 ==> Pow10(width) <= TWO63
    ensures width <= 38 ==> Pow10(width) <= TWO127
  {
    hide Pow;
    assert Pow(10, 4) == 10000 && Pow(10, 9) == 1000000000 && Pow(10, 18) == 1000000000000000000
        && Pow(10, 38) == 100000000000000000000000000000000000000 by { SmallPowers(); }
    if width <= 38 { PowMonotone(10, width, 38); }
    if width <= 18 { PowMonotone(10, width, 18); }
    if width <= 9 { PowMonotone(10, width, 9); }
    if width <= 4 { PowMonotone(10, width, 4); }
  }

  lemma SmallPowers()
    ensures Pow(10, 4) == 10000 && Pow(10, 9) == 1000000000 && Pow(10, 18) == 1000000000000000000
    ensures Pow(10, 38) == 100000000000000000000000000000000000000
  {
    hide Pow;
    assert Pow(10, 1) == 10 by { PowOne(10); }
    PowAdd(10, 1, 1);
    PowAdd(10, 2, 2);
    PowAdd(10, 4, 4);
    PowAdd(10, 8, 1);
    PowAdd(10, 9, 9);
    PowAdd(10, 18, 1);
    PowAdd(10, 19, 19);
  }

  function SignedMagnitude(n: Number, m: nat): int
    requires n.Finite?
  {
    if n.negative then 0 - m else m
  }

  /** A value of at most `width` digits behind which nothing is left decodes exactly. */
  lemma ReadsExactly(n: Number, width: nat, scale: nat)
    requires n.Finite? && width <= 38
    requires Whole10(n.mantissa, n.exponent + scale) && Floor10(n.mantissa, n.exponent + scale) < Pow10(width)
    ensures ReadDecimal(n, width, scale, false)
         == Exactly(SignedMagnitude(n, Floor10(n.mantissa, n.exponent + scale)))
    ensures width <= 18 ==>
              Scaled(n, scale, false, TWO63) == Exactly(SignedMagnitude(n, Floor10(n.mantissa, n.exponent + scale)))
  {
    hide Pow, Pow10, Floor10, Whole10, Nearest10;
    NearestOfWhole(n.mantissa, n.exponent + scale);
    WidthsFit(width);
  }

  /** The plan of a column with precision or scale loses nothing: unless it is DOUBLE, every value that
      NUMBER(p, s) can hold is decoded as exactly that value. NUMBER(*, s) means 38 digits. */
  lemma PlanIsExact(n: Number, precision: int, scale: int, u: Unconstrained)
    requires precision <= 38 && (precision >= 0 || scale >= 0)
    requires Storable(n, if precision > 0 then precision else 38, scale)
    ensures match PlanNumber(precision, scale, false, u)
            case NativeInteger(t) =>
              && Whole10(n.mantissa, n.exponent)
              && ReadInteger(n, t) == Exactly(SignedMagnitude(n, Floor10(n.mantissa, n.exponent)))
            case Decimal(width, s, round) =>
              !round && 0 < width <= 38 && s <= width && Whole10(n.mantissa, n.exponent + s)
              && ReadDecimal(n, width, s, false) == Exactly(SignedMagnitude(n, Floor10(n.mantissa, n.exponent + s)))
            case Double => (if precision > 0 then precision else 38) - scale > 38 || scale > 38
            case Varchar => false
  {
    hide Pow, Pow10, Floor10, Whole10, Scaled, ReadDecimal;
    var p := Precision(precision);
    var k := Floor10(n.mantissa, n.exponent + scale);
    if scale < 0 {
      if p - scale <= 38 {
        ScaledUp(n.mantissa, n.exponent + scale, -scale);
        TimesPower(k, p, -scale);
        assert n.exponent + scale + -scale == n.exponent + 0;
        ReadsExactly(n, p - scale, 0);
      }
    } else if scale > p {
      if scale <= 38 {
        MorePlaces(p, scale);
        ReadsExactly(n, scale, scale);
      }
    } else {
      ReadsExactly(n, p, scale);
      WidthsFit(p);
    }
  }

  /** The same with integer columns fetched as integers, as they are planned. */
  lemma PlanIsLossless(n: Number, precision: int, scale: int, u: Unconstrained, convert: IntegerConversion)
    requires precision <= 38 && (precision >= 0 || scale >= 0) && ConvertsIntegers(convert)
    requires Storable(n, if precision > 0 then precision else 38, scale)
    ensures match PlanNumber(precision, scale, false, u)
            case NativeInteger(t) =>
              && Whole10(n.mantissa, n.exponent)
              && ReadNative(convert, n, t) == Some(SignedMagnitude(n, Floor10(n.mantissa, n.exponent)))
            case Decimal(width, s, round) =>
              !round && 0 < width <= 38 && s <= width && Whole10(n.mantissa, n.exponent + s)
              && ReadDecimal(n, width, s, false) == Exactly(SignedMagnitude(n, Floor10(n.mantissa, n.exponent + s)))
            case Double => (if precision > 0 then precision else 38) - scale > 38 || scale > 38
            case Varchar => false
  {
    hide Pow, Pow10, Floor10, Whole10, ReadDecimal, PlanNumber;
    PlanIsExact(n, precision, scale, u);
    if PlanNumber(precision, scale, false, u).NativeInteger? {
      PlannedInteger(n, precision, scale, u, convert);
    }
  }

  lemma PlannedInteger(n: Number, precision: int, scale: int, u: Unconstrained, convert: IntegerConversion)
    requires precision <= 38 && (precision >= 0 || scale >= 0) && ConvertsIntegers(convert)
    requires Storable(n, if precision > 0 then precision else 38, scale)
    requires PlanNumber(precision, scale, false, u).NativeInteger?
    ensures ReadNative(convert, n, PlanNumber(precision, scale, false, u).integerType)
         == Some(SignedMagnitude(n, Floor10(n.mantissa, n.exponent)))
  {
    hide Pow, Pow10, Floor10, Whole10, ReadDecimal, Scaled;
    PlanIsExact(n, precision, scale, u);
    ReadsExactly(n, precision, 0);
    WidthsFit(precision);
  }

  /** The greatest value of NUMBER(p, s). */
  function Nines(p: nat, scale: int): (n: Number)
    requires p > 0
    ensures n.Finite? && 9 <= n.mantissa == Pow10(p) - 1 && n.exponent == 0 - scale
  {
    hide Pow;
    PowMonotone(10, 1, p);
    assert Pow10(1) == 10 by { PowOne(10); }
    Finite(false, Pow10(p) - 1, 0 - scale)
  }

  /** No DECIMAL of fewer digits or of a smaller scale, and no smaller integer type, holds the greatest value of the
      column; one that is planned as DOUBLE no DECIMAL of 38 digits holds. Columns of whole numbers of at most 18 digits
      are integers. */
  lemma PlanIsNarrowest(precision: int, scale: int, u: Unconstrained, w: nat, s: nat)
    requires precision <= 38 && (precision >= 0 || scale >= 0) && s <= w
    ensures var (p, plan) := (if precision > 0 then precision else 38, PlanNumber(precision, scale, false, u));
            var n := Nines(p, scale);
            Storable(n, p, scale) &&
            match plan
            case NativeInteger(t) =>
              (t == Integer ==> !InType(Pow10(p) - 1, Smallint)) && (t == Bigint ==> !InType(Pow10(p) - 1, Integer))
            case Decimal(width, digits, _) =>
              && !(scale == 0 && 0 < precision <= 18)
              && (ReadDecimal(n, w, s, false).Exactly? ==> width <= w && digits <= s)
            case Double => ReadDecimal(n, w, s, false).Exactly? ==> w > 38
            case Varchar => false
  {
    hide Pow, Pow10, Whole10, Floor10, ReadDecimal, InType;
    var p := if precision > 0 then precision else 38;
    NinesStorable(p, scale);
    if ReadDecimal(Nines(p, scale), w, s, false).Exactly? { NinesNeed(p, scale, w, s); }
    if scale == 0 && 0 < precision <= 18 { NinesWide(p); }
  }

  lemma NinesStorable(p: nat, scale: int)
    requires p > 0
    ensures Storable(Nines(p, scale), p, scale)
  {
    hide Pow;
    assert Pow10(0) == 1 by { PowUnfold(10, 0); }
  }

  lemma NinesWide(p: nat)
    requires 0 < p <= 18
    ensures p > 4 ==> !InType(Pow10(p) - 1, Smallint)
    ensures p > 9 ==> !InType(Pow10(p) - 1, Integer)
  {
    hide Pow;
    SmallPowers();
    assert Pow(10, 5) == 100000 && Pow(10, 10) == 10000000000 by {
      PowAdd(10, 4, 1);
      PowAdd(10, 9, 1);
      assert Pow(10, 1) == 10 by { PowOne(10); }
    }
    if p > 4 { PowMonotone(10, 5, p); }
    if p > 9 { PowMonotone(10, 10, p); }
  }

  lemma ReadIsWhole(n: Number, w: nat, s: nat)
    requires n.Finite? && ReadDecimal(n, w, s, false).Exactly?
    ensures Whole10(n.mantissa, n.exponent + s) && Floor10(n.mantissa, n.exponent + s) < Pow10(w)
  {
    hide Pow, Pow10, Whole10, Floor10, Nearest10;
    if Whole10(n.mantissa, n.exponent + s) { NearestOfWhole(n.mantissa, n.exponent + s); }
  }

  /** The digits that the greatest value needs. */
  lemma NinesNeed(p: nat, scale: int, w: nat, s: nat)
    requires p > 0 && s <= w && ReadDecimal(Nines(p, scale), w, s, false).Exactly?
    ensures scale <= s && p - scale <= w - s
  {
    hide Pow, ReadDecimal;
    var m, e := Pow10(p) - 1, s - scale;
    ReadIsWhole(Nines(p, scale), w, s);
    if e < 0 {
      NinesNotWhole(p, -e);
    } else if w < p + e {
      NinesTooMany(p, e, w);
    }
  }

  lemma NinesTooMany(p: nat, e: nat, w: nat)
    requires p > 0 && w < p + e
    ensures Pow10(p) > 0 && (Pow10(p) - 1) * Pow10(e) >= Pow10(w)
  {
    hide Pow;
    PowMonotone(10, w, p - 1 + e);
    PowAdd(10, p - 1, e);
    PowMonotone(10, 0, p - 1);
    PowUnfold(10, 0);
    PowUnfold(10, p);
    MulMonotone(Pow10(p - 1), Pow10(p) - 1, Pow10(e));
  }

  lemma NinesNotWhole(p: nat, k: nat)
    requires p > 0 && k > 0
    ensures Pow10(k) > 0 && Pow10(p) > 0 && (Pow10(p) - 1) % Pow10(k) != 0
  {
    hide Pow;
    PowMonotone(10, 0, k);
    PowMonotone(10, 0, p);
    PowUnfold(10, 0);
    PowUnfold(10, p);
    PowUnfold(10, k);
    if (Pow10(p) - 1) % Pow10(k) == 0 {
      DivMod(Pow10(p) - 1, Pow10(k));
      TenTimes((Pow10(p) - 1) / Pow10(k), Pow10(k - 1), Pow10(p - 1));
    }
  }

  lemma TenTimes(q: nat, b: nat, a: nat)
    ensures q * (10 * b) != 10 * a - 1
  {
    assert q * (10 * b) == 10 * (q * b);
  }

  lemma TimesPower(k: nat, p: nat, y: nat)
    requires k < Pow10(p)
    ensures k * Pow10(y) < Pow10(p + y)
  {
    hide Pow;
    PowAdd(10, p, y);
    MulStrict(k, Pow10(p), Pow10(y));
  }

  lemma MorePlaces(x: nat, y: nat)
    requires x <= y
    ensures Pow10(x) <= Pow10(y)
  {
    PowMonotone(10, x, y);
  }

  /** A column without precision and scale that is read as DECIMAL(w, s) gives each value rounded half away from
      zero, or an error when the rounded value has more digits than the type. */
  lemma UnconstrainedRounds(n: Number, width: nat, scale: nat)
    requires n.Finite? && width <= 38
    ensures ReadDecimal(n, width, scale, true)
         == if Nearest10(n.mantissa, n.exponent + scale) < Pow10(width)
            then Exactly(SignedMagnitude(n, Nearest10(n.mantissa, n.exponent + scale)))
            else Overflow
  {
    hide Pow, Pow10;
    WidthsFit(width);
    FloorBelowNearest(n.mantissa, n.exponent + scale);
  }

  lemma FloorBelowNearest(v: nat, e: int)
    ensures Floor10(v, e) <= Nearest10(v, e)
  {
    if e < 0 {
      var d := Pow10(-e);
      DivMod(v, d);
      DivMod(2 * v + d, 2 * d);
      var q, r := v / d, v % d;
      assert q * (2 * d) == 2 * (q * d) by { MulAssoc(2, q, d); MulAssoc(q, 2, d); }
      if (2 * v + d) / (2 * d) < q {
        MulMonotone((2 * v + d) / (2 * d) + 1, q, 2 * d);
        Distribute((2 * v + d) / (2 * d), 1, 2 * d);
      }
    }
  }
}
