/** The proleptic Gregorian calendar: Hinnant's two conversions between day numbers and dates, against the
    month lengths and the leap year rule. */
module Calendar {
  import opened Digits

  datatype Date = Date(year: int, month: nat, day: nat)

  predicate Leap(year: int) {
    year % 4 == 0 && (year % 100 != 0 || year % 400 == 0)
  }

  function MonthLength(year: int, month: nat): nat {
    if month == 2 then (if Leap(year) then 29 else 28)
    else if month in {4, 6, 9, 11} then 30
    else 31
  }

  predicate Valid(d: Date) {
    1 <= d.month <= 12 && 1 <= d.day <= MonthLength(d.year, d.month)
  }

  /** The day after a date. */
  function Next(d: Date): Date {
    if d.day < MonthLength(d.year, d.month) then d.(day := d.day + 1)
    else if d.month < 12 then Date(d.year, d.month + 1, 1)
    else Date(d.year + 1, 1, 1)
  }

  predicate Before(a: Date, b: Date) {
    || a.year < b.year
    || (a.year == b.year && a.month < b.month)
    || (a.year == b.year && a.month == b.month && a.day < b.day)
  }

  /** Division of C++, which truncates toward zero. */
  function Quotient(a: int, b: nat): (q: int)
    requires b > 0
    ensures a >= 0 ==> q == a / b
    ensures a < 0 ==> q == -(-a / b)
  {
    if a >= 0 then a / b else -(-a / b)
  }

  /** The adjustment before the truncating division turns it into a floor division. */
  lemma EraIsFloor(a: int, b: nat)
    requires b > 0
    ensures Quotient(if a >= 0 then a else a - (b - 1), b) == a / b
  {
    if a < 0 {
      var q, r := a / b, a % b;
      assert a == q * b + r;
      NegatedQuotient(a, b, q, r);
    }
  }

  lemma NegatedQuotient(a: int, b: nat, q: int, r: int)
    requires b > 0 && a < 0 && a == q * b + r && 0 <= r < b
    ensures (b - 1 - a) / b == -q
  {
    DivModUnique(b - 1 - a, b, -q, b - 1 - r);
  }

  // A year here starts in March; an era is 400 of them, 146097 days.

  function YearStart(yoe: nat): nat
  {
    365 * yoe + yoe / 4 - yoe / 100
  }

  function YearEnd(yoe: nat): nat {
    if yoe == 399 then 146097 else YearStart(yoe + 1)
  }

  function MonthStart(mp: nat): nat {
    (153 * mp + 2) / 5
  }

  function YearOf(doe: nat): int {
    (doe - doe / 1460 + doe / 36524 - doe / 146096) / 365
  }

  /** Year 100 c + 4 q + r of an era. */
  ghost predicate Parts(c: nat, q: nat, r: nat) {
    c < 4 && q < 25 && r < 4
  }

  function ExtraDay(c: nat, q: nat, r: nat): nat {
    if r == 3 && (q < 24 || c == 3) then 1 else 0
  }

  lemma YearStartOfParts(c: nat, q: nat, r: nat)
    requires Parts(c, q, r)
    ensures YearStart(100 * c + 4 * q + r) == 36524 * c + 1461 * q + 365 * r
    ensures YearEnd(100 * c + 4 * q + r) == 36524 * c + 1461 * q + 365 * r + 365 + ExtraDay(c, q, r)
  {
    var yoe := 100 * c + 4 * q + r;
    DivModUnique(yoe, 4, 25 * c + q, r);
    DivModUnique(yoe, 100, c, 4 * q + r);
    if r < 3 {
      DivModUnique(yoe + 1, 4, 25 * c + q, r + 1);
      DivModUnique(yoe + 1, 100, c, 4 * q + r + 1);
    } else {
      DivModUnique(yoe + 1, 4, 25 * c + q + 1, 0);
      if q < 24 {
        DivModUnique(yoe + 1, 100, c, 4 * q + r + 1);
      } else {
        DivModUnique(yoe + 1, 100, c + 1, 0);
      }
    }
  }

  /** The year formula finds the year of every day of every year. */
  lemma YearOfParts(c: nat, q: nat, r: nat, doy: nat)
    requires Parts(c, q, r) && doy < 365 + ExtraDay(c, q, r)
    ensures YearOf(36524 * c + 1461 * q + 365 * r + doy) == 100 * c + 4 * q + r
  {
    var doe := 36524 * c + 1461 * q + 365 * r + doy;
    var rest := 24 * c + q + 365 * r + doy;
    var late := if rest >= 1460 then 1 else 0;
    DivModUnique(doe, 1460, 25 * c + q + late, rest - 1460 * late);
    var last := if doe == 146096 then 1 else 0;
    DivModUnique(doe, 146096, last, doe - 146096 * last);
    DivModUnique(doe, 36524, c + last, 1461 * q + 365 * r + doy - 36524 * last);
    DivModUnique(36500 * c + 1460 * q + 365 * r + doy - late, 365, 100 * c + 4 * q + r, doy - late);
  }

  lemma YearParts(yoe: nat) returns (c: nat, q: nat, r: nat)
    requires yoe < 400
    ensures Parts(c, q, r) && yoe == 100 * c + 4 * q + r
  {
    c, q, r := yoe / 100, yoe % 100 / 4, yoe % 4;
  }

  lemma YearOfDay(doe: nat)
    requires doe < 146097
    ensures 0 <= YearOf(doe) < 400
    ensures YearStart(YearOf(doe)) <= doe < YearEnd(YearOf(doe))
  {
    var c := if doe / 36524 < 4 then doe / 36524 else 3;
    var u := doe - 36524 * c;
    var q := u / 1461;
    var r := if u % 1461 / 365 < 4 then u % 1461 / 365 else 3;
    YearOfParts(c, q, r, u % 1461 - 365 * r);
    YearStartOfParts(c, q, r);
  }

  lemma YearOfInYear(yoe: nat, doy: nat)
    requires yoe < 400 && YearStart(yoe) + doy < YearEnd(yoe)
    ensures YearOf(YearStart(yoe) + doy) == yoe
  {
    hide YearOf, YearStart, YearEnd;
    var c, q, r := YearParts(yoe);
    YearStartOfParts(c, q, r);
    YearOfParts(c, q, r, doy);
  }

  /** The year of an era that starts in March is as long as the leap year rule says for the year it ends in. */
  lemma YearLength(era: int, yoe: nat)
    requires yoe < 400
    ensures YearEnd(yoe) - YearStart(yoe) == if Leap(era * 400 + yoe + 1) then 366 else 365
  {
    hide YearStart, YearEnd;
    var c, q, r := YearParts(yoe);
    YearStartOfParts(c, q, r);
    LeapOfParts(era, c, q, r);
  }

  lemma LeapOfParts(era: int, c: nat, q: nat, r: nat)
    requires Parts(c, q, r)
    ensures Leap(era * 400 + (100 * c + 4 * q + r) + 1) <==> ExtraDay(c, q, r) == 1
  {}

  lemma MonthOfDay(doy: nat)
    requires doy < 366
    ensures var mp := (5 * doy + 2) / 153;
            mp < 12 && MonthStart(mp) <= doy < MonthStart(mp + 1)
  {}

  lemma MonthOfInMonth(mp: nat, doy: nat)
    requires mp < 12 && MonthStart(mp) <= doy < MonthStart(mp + 1)
    ensures (5 * doy + 2) / 153 == mp
  {}

  function MonthAt(mp: nat): nat {
    if mp < 10 then mp + 3 else mp - 9
  }

  lemma MonthLengths(year: int, mp: nat)
    requires mp < 11
    ensures MonthStart(mp + 1) - MonthStart(mp) == MonthLength(year, MonthAt(mp))
  {}

  lemma FebruaryEnds(year: int)
    ensures MonthStart(11) + MonthLength(year, 2) == if Leap(year) then 366 else 365
    ensures MonthStart(12) == 367
  {}

  function CivilFromDays(days: int): Date {
    var z := days + 719468;
    var era := Quotient(if z >= 0 then z else z - 146096, 146097);
    EraIsFloor(z, 146097);
    var doe := z - era * 146097;
    YearOfDay(doe);
    var yoe := YearOf(doe);
    var doy := doe - YearStart(yoe);
    var mp := (5 * doy + 2) / 153;
    var day := doy - MonthStart(mp) + 1;
    MonthOfDay(doy);
    var month := MonthAt(mp);
    Date(yoe + era * 400 + (if month <= 2 then 1 else 0), month, day)
  }

  function DaysFromCivil(d: Date): int
    requires 1 <= d.month <= 12 && d.day >= 1
  {
    var y := d.year - if d.month <= 2 then 1 else 0;
    var era := Quotient(if y >= 0 then y else y - 399, 400);
    EraIsFloor(y, 400);
    var yoe := y - era * 400;
    var doy := MonthStart(if d.month > 2 then d.month - 3 else d.month + 9) + d.day - 1;
    era * 146097 + (YearStart(yoe) + doy) - 719468
  }

  /** Position of a day: era, year of the era and day of that year. */
  ghost predicate InYear(yoe: nat, doy: nat) {
    yoe < 400 && YearStart(yoe) + doy < YearEnd(yoe)
  }

  function DayNumber(era: int, yoe: nat, doy: nat): int {
    era * 146097 + (YearStart(yoe) + doy) - 719468
  }

  function DateAt(era: int, yoe: nat, doy: nat): Date
    requires doy < 366
  {
    MonthOfDay(doy);
    var mp := (5 * doy + 2) / 153;
    Date(yoe + era * 400 + (if MonthAt(mp) <= 2 then 1 else 0), MonthAt(mp), doy - MonthStart(mp) + 1)
  }

  lemma YearIsShort(yoe: nat, doy: nat)
    requires InYear(yoe, doy)
    ensures doy < 366 && YearStart(yoe) + doy < 146097
  {
    hide YearStart, YearEnd;
    var c, q, r := YearParts(yoe);
    YearStartOfParts(c, q, r);
  }

  lemma CivilOfDayNumber(era: int, yoe: nat, doy: nat)
    requires InYear(yoe, doy)
    ensures doy < 366 && CivilFromDays(DayNumber(era, yoe, doy)) == DateAt(era, yoe, doy)
  {
    hide YearOf, YearStart, YearEnd, Quotient;
    YearIsShort(yoe, doy);
    var doe := YearStart(yoe) + doy;
    var z := era * 146097 + doe;
    EraIsFloor(z, 146097);
    DivModUnique(z, 146097, era, doe);
    YearOfInYear(yoe, doy);
  }

  lemma DayNumberOfCivil(days: int) returns (era: int, yoe: nat, doy: nat)
    ensures InYear(yoe, doy) && days == DayNumber(era, yoe, doy)
  {
    hide YearOf, YearStart, YearEnd;
    era := (days + 719468) / 146097;
    var doe := (days + 719468) % 146097;
    YearOfDay(doe);
    yoe := YearOf(doe);
    doy := doe - YearStart(yoe);
  }

  /** A day of a year is a valid date, and a valid date is a day of its year. */
  lemma DateAtIsValid(era: int, yoe: nat, doy: nat)
    requires InYear(yoe, doy)
    ensures doy < 366 && Valid(DateAt(era, yoe, doy))
  {
    hide YearStart, YearEnd, MonthStart, MonthLength;
    YearIsShort(yoe, doy);
    YearLength(era, yoe);
    MonthOfDay(doy);
    var mp := (5 * doy + 2) / 153;
    var year := DateAt(era, yoe, doy).year;
    if mp < 11 {
      MonthLengths(year, mp);
    } else {
      FebruaryEnds(year);
    }
  }

  lemma DaysOfDate(d: Date) returns (era: int, yoe: nat, doy: nat)
    requires Valid(d)
    ensures InYear(yoe, doy) && doy < 366
    ensures DaysFromCivil(d) == DayNumber(era, yoe, doy) && DateAt(era, yoe, doy) == d
  {
    hide YearStart, YearEnd, MonthStart, MonthLength, Quotient, Leap;
    var y := d.year - if d.month <= 2 then 1 else 0;
    EraIsFloor(y, 400);
    DivMod(y - 400 * (y / 400), 1);
    era, yoe := y / 400, y % 400;
    var mp := if d.month > 2 then d.month - 3 else d.month + 9;
    doy := MonthStart(mp) + d.day - 1;
    YearLength(era, yoe);
    if mp < 11 {
      MonthLengths(d.year, mp);
      MonthsBefore(mp);
    } else {
      FebruaryEnds(d.year);
    }
    MonthOfInMonth(mp, doy);
  }

  lemma MonthsBefore(mp: nat)
    requires mp < 11
    ensures MonthStart(mp + 1) <= 337
  {}

  /** Converting a day number to a date and back gives the day number; the date exists. */
  lemma DaysOfCivil(days: int)
    ensures Valid(CivilFromDays(days)) && DaysFromCivil(CivilFromDays(days)) == days
  {
    hide YearStart, YearEnd, MonthStart, MonthLength, Quotient, YearOf;
    var era, yoe, doy := DayNumberOfCivil(days);
    CivilOfDayNumber(era, yoe, doy);
    DateAtIsValid(era, yoe, doy);
    var d := CivilFromDays(days);
    var era', yoe', doy' := DaysOfDate(d);
    SamePosition(era, yoe, doy, era', yoe', doy');
  }

  /** A date has one position. */
  lemma SamePosition(era: int, yoe: nat, doy: nat, era': int, yoe': nat, doy': nat)
    requires InYear(yoe, doy) && InYear(yoe', doy') && doy < 366 && doy' < 366
    requires DateAt(era, yoe, doy) == DateAt(era', yoe', doy')
    ensures era == era' && yoe == yoe' && doy == doy'
  {
    hide YearStart, YearEnd, MonthStart;
    MonthOfDay(doy);
    MonthOfDay(doy');
  }

  /** Converting a date to a day number and back gives the date exactly when it exists. */
  lemma CivilOfDays(d: Date)
    requires 1 <= d.month <= 12 && d.day >= 1
    ensures CivilFromDays(DaysFromCivil(d)) == d <==> Valid(d)
  {
    hide CivilFromDays, DaysFromCivil, MonthLength;
    DaysOfCivil(DaysFromCivil(d));
    if Valid(d) {
      var era, yoe, doy := DaysOfDate(d);
      CivilOfDayNumber(era, yoe, doy);
    }
  }

  lemma NextIsValid(d: Date)
    requires Valid(d)
    ensures Valid(Next(d))
  {}

  /** Day number of a day of month mp of the year that starts in March of year y. */
  function DaysAt(y: int, mp: nat, day: nat): int {
    y / 400 * 146097 + YearStart(y % 400) + MonthStart(mp) + day - 719469
  }

  function MarchYear(d: Date): int {
    d.year - if d.month <= 2 then 1 else 0
  }

  function MarchMonth(d: Date): nat
    requires 1 <= d.month <= 12
  {
    if d.month > 2 then d.month - 3 else d.month + 9
  }

  lemma DaysFromMarch(d: Date)
    requires 1 <= d.month <= 12 && d.day >= 1
    ensures DaysFromCivil(d) == DaysAt(MarchYear(d), MarchMonth(d), d.day)
  {
    hide YearStart, MonthStart, Quotient;
    EraIsFloor(MarchYear(d), 400);
  }

  lemma MarchFirst(y: int)
    ensures DaysAt(y + 1, 0, 1) == DaysAt(y, 11, MonthLength(y + 1, 2)) + 1
  {
    hide YearStart, MonthStart, MonthLength, Leap;
    var era, yoe := y / 400, y % 400;
    YearLength(era, yoe);
    FebruaryEnds(y + 1);
    MarchStarts();
    if yoe < 399 {
      DivModUnique(y + 1, 400, era, yoe + 1);
    } else {
      DivModUnique(y + 1, 400, era + 1, 0);
    }
  }

  lemma MarchStarts()
    ensures YearStart(0) == 0 && MonthStart(0) == 0
  {}

  lemma DaysOfNext(d: Date)
    requires Valid(d)
    ensures Valid(Next(d)) && DaysFromCivil(Next(d)) == DaysFromCivil(d) + 1
  {
    hide YearStart, MonthStart, MonthLength, DaysFromCivil;
    NextIsValid(d);
    DaysFromMarch(d);
    DaysFromMarch(Next(d));
    if d.day == MonthLength(d.year, d.month) {
      if d.month == 2 {
        MarchFirst(MarchYear(d));
      } else {
        MonthLengths(d.year, MarchMonth(d));
      }
    }
  }

  /** The next day number is the next date. */
  lemma CivilOfNext(days: int)
    ensures CivilFromDays(days + 1) == Next(CivilFromDays(days))
  {
    hide CivilFromDays, DaysFromCivil, Next, MonthLength;
    var d := CivilFromDays(days);
    DaysOfCivil(days);
    DaysOfNext(d);
    CivilOfDays(Next(d));
  }

  /** The anchor of the day count. */
  lemma Epoch()
    ensures CivilFromDays(0) == Date(1970, 1, 1) && DaysFromCivil(Date(1970, 1, 1)) == 0
  {
    hide CivilFromDays, DaysFromCivil;
    CivilOfDayNumber(4, 369, 306);
    DaysOfCivil(0);
  }

  /** Day number of the first of March of year y. */
  function March(y: int): int {
    DaysAt(y, 0, 1)
  }

  lemma MarchStep(y: int)
    ensures March(y + 1) == March(y) + if Leap(y + 1) then 366 else 365
  {
    hide Leap, YearStart;
    MarchFirst(y);
    FebruaryEnds(y + 1);
    MarchStarts();
  }

  lemma {:induction false} MarchGrows(y1: int, y2: int)
    requires y1 <= y2
    ensures March(y1) <= March(y2)
    decreases y2 - y1
  {
    hide March;
    if y1 < y2 {
      MarchGrows(y1, y2 - 1);
      MarchStep(y2 - 1);
    }
  }

  lemma WithinYear(d: Date)
    requires Valid(d)
    ensures March(MarchYear(d)) <= DaysFromCivil(d) < March(MarchYear(d) + 1)
  {
    hide YearStart, MonthStart, DaysFromCivil, Leap;
    DaysFromMarch(d);
    MarchStarts();
    MarchStep(MarchYear(d));
    var mp := MarchMonth(d);
    MonthsGrow(0, mp);
    if mp < 11 {
      MonthLengths(d.year, mp);
      MonthsBefore(mp);
    } else {
      FebruaryEnds(d.year);
    }
  }

  lemma MonthsGrow(m1: nat, m2: nat)
    requires m1 <= m2
    ensures MonthStart(m1) <= MonthStart(m2)
  {}

  /** Earlier dates have smaller day numbers. */
  lemma DaysInOrder(a: Date, b: Date)
    requires Valid(a) && Valid(b)
    ensures Before(a, b) <==> DaysFromCivil(a) < DaysFromCivil(b)
  {
    if Before(a, b) { EarlierDays(a, b); }
    if Before(b, a) { EarlierDays(b, a); }
  }

  lemma EarlierDays(a: Date, b: Date)
    requires Valid(a) && Valid(b) && Before(a, b)
    ensures DaysFromCivil(a) < DaysFromCivil(b)
  {
    hide YearStart, MonthStart, DaysFromCivil, MonthLength, Leap, March;
    if MarchYear(a) < MarchYear(b) {
      WithinYear(a);
      WithinYear(b);
      MarchGrows(MarchYear(a) + 1, MarchYear(b));
    } else {
      DaysFromMarch(a);
      DaysFromMarch(b);
      if MarchMonth(a) < MarchMonth(b) {
        MonthLengths(a.year, MarchMonth(a));
        MonthsGrow(MarchMonth(a) + 1, MarchMonth(b));
      }
    }
  }

  /** The years that Oracle's DATE format can hold, as day numbers. */
  lemma FourDigitYears(days: int)
    ensures 1 <= CivilFromDays(days).year <= 9999 <==> -719162 <= days <= 2932896
  {
    hide CivilFromDays, DaysFromCivil;
    var d, first, last := CivilFromDays(days), Date(1, 1, 1), Date(9999, 12, 31);
    DaysOfCivil(days);
    Bounds();
    DaysInOrder(d, first);
    DaysInOrder(last, d);
  }

  lemma Bounds()
    ensures Valid(Date(1, 1, 1)) && DaysFromCivil(Date(1, 1, 1)) == -719162
    ensures Valid(Date(9999, 12, 31)) && DaysFromCivil(Date(9999, 12, 31)) == 2932896
  {}
}
