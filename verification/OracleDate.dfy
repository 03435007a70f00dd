/** Oracle's internal DATE and TIMESTAMP formats: seven bytes of calendar fields, then big-endian nanoseconds. */
module OracleDate {
  import opened Machine
  import opened Digits
  import opened Calendar
  import opened NumberReading

  const MICROS_PER_SECOND: nat := 1_000_000
  const MICROS_PER_DAY: nat := 86_400_000_000
  const DATE_BYTES: nat := 7
  const TIMESTAMP_BYTES: nat := 11

  /** Days and microseconds of the day: truncating division and remainder, adjusted when negative. */
  function SplitMicros(micros: int): (r: (int, int))
    ensures r.0 == micros / MICROS_PER_DAY && r.1 == micros % MICROS_PER_DAY
  {
    var days := Quotient(micros, MICROS_PER_DAY);
    var rest := micros - days * MICROS_PER_DAY;
    DivMod(if micros >= 0 then micros else -micros, MICROS_PER_DAY);
    assert rest < 0 ==> micros == (days - 1) * MICROS_PER_DAY + (rest + MICROS_PER_DAY);
    DivModUnique(micros, MICROS_PER_DAY, if rest < 0 then days - 1 else days,
                 if rest < 0 then rest + MICROS_PER_DAY else rest);
    if rest < 0 then (days - 1, rest + MICROS_PER_DAY) else (days, rest)
  }

  /** A date and time whose fields can be stored: years 1 to 9999. */
  ghost predicate Storable(d: Date, second: nat) {
    1 <= d.year <= 9999 && Calendar.Valid(d) && second < 86400
  }

  /** The seven bytes of a date and a second of the day. */
  function DateBytes(d: Date, second: nat): (b: seq<uint8>)
    requires Storable(d, second)
    ensures |b| == DATE_BYTES
  {
    [d.year / 100 + 100, d.year % 100 + 100, d.month, d.day, second / 3600 + 1, second / 60 % 60 + 1, second % 60 + 1]
  }

  function NanoBytes(nanos: uint32): (b: seq<uint8>)
    ensures |b| == 4
  {
    [nanos / 0x1000000, nanos / 0x10000 % 0x100, nanos / 0x100 % 0x100, nanos % 0x100]
  }

  /** The seven bytes of a day and time of day, seconds truncated; none outside the years of the format. */
  function EncodedDate(days: int, microsOfDay: nat): (b: seq<uint8>)
    requires microsOfDay < MICROS_PER_DAY
  {
    var d := CivilFromDays(days);
    DaysOfCivil(days);
    if 1 <= d.year <= 9999 then DateBytes(d, microsOfDay / MICROS_PER_SECOND) else []
  }

  /** Canonical form: seven bytes without fractional seconds, eleven otherwise; none for a refused date. */
  function EncodedTimestamp(days: int, microsOfDay: nat): (b: seq<uint8>)
    requires microsOfDay < MICROS_PER_DAY
  {
    var date := EncodedDate(days, microsOfDay);
    if date == [] || microsOfDay % MICROS_PER_SECOND == 0 then date
    else date + NanoBytes(microsOfDay % MICROS_PER_SECOND * 1000)
  }

  /** The dates that can be stored, as day numbers. */
  lemma EncodedDates(days: int, microsOfDay: nat)
    requires microsOfDay < MICROS_PER_DAY
    ensures |EncodedDate(days, microsOfDay)| == if -719162 <= days <= 2932896 then DATE_BYTES else 0
    ensures |EncodedTimestamp(days, microsOfDay)|
         == if !(-719162 <= days <= 2932896) then 0
            else if microsOfDay % MICROS_PER_SECOND == 0 then DATE_BYTES
            else TIMESTAMP_BYTES
  {
    hide CivilFromDays, DateBytes, NanoBytes;
    FourDigitYears(days);
    DaysOfCivil(days);
  }

  method EncodeOracleDate(days: int, microsOfDay: int, out: array<uint8>) returns (ok: bool)
    requires 0 <= microsOfDay < MICROS_PER_DAY && out.Length >= DATE_BYTES
    modifies out
    ensures ok <==> EncodedDate(days, microsOfDay) != []
    ensures ok ==> out[..DATE_BYTES] == EncodedDate(days, microsOfDay)
    ensures !ok ==> out[..] == old(out[..])
  {
    hide CivilFromDays;
    var d := CivilFromDays(days);
    DaysOfCivil(days);
    if d.year < 1 || d.year > 9999 {
      return false;
    }
    var seconds := microsOfDay / MICROS_PER_SECOND;
    out[0] := d.year / 100 + 100;
    out[1] := d.year % 100 + 100;
    out[2] := d.month;
    out[3] := d.day;
    out[4] := seconds / 3600 + 1;
    out[5] := seconds / 60 % 60 + 1;
    out[6] := seconds % 60 + 1;
    return true;
  }

  method EncodeOracleTimestamp(days: int, microsOfDay: int, out: array<uint8>) returns (len: nat)
    requires 0 <= microsOfDay < MICROS_PER_DAY && out.Length >= TIMESTAMP_BYTES
    modifies out
    ensures len <= out.Length && out[..len] == EncodedTimestamp(days, microsOfDay)
  {
    hide EncodedDate;
    EncodedDates(days, microsOfDay);
    var ok := EncodeOracleDate(days, microsOfDay, out);
    if !ok {
      return 0;
    }
    ghost var date := out[..DATE_BYTES];
    var nanos := microsOfDay % MICROS_PER_SECOND * 1000;
    if nanos == 0 {
      return DATE_BYTES;
    }
    out[7] := nanos / 0x1000000;
    out[8] := nanos / 0x10000 % 0x100;
    out[9] := nanos / 0x100 % 0x100;
    out[10] := nanos % 0x100;
    assert out[..TIMESTAMP_BYTES] == date + NanoBytes(nanos);
    return TIMESTAMP_BYTES;
  }

  function Byte(bytes: seq<uint8>, i: nat): int
    requires i < |bytes|
  {
    bytes[i]
  }

  /** Year of the first two bytes; there is no year 0, and a BC year is one less than its astronomical number. */
  function YearField(bytes: seq<uint8>): int
    requires |bytes| >= DATE_BYTES
  {
    (Byte(bytes, 0) - 100) * 100 + (Byte(bytes, 1) - 100)
  }

  function DateField(bytes: seq<uint8>): Date
    requires |bytes| >= DATE_BYTES
  {
    var year := YearField(bytes);
    Date(if year < 0 then year + 1 else year, bytes[2], bytes[3])
  }

  function SecondField(bytes: seq<uint8>): int
    requires |bytes| >= DATE_BYTES
  {
    ((Byte(bytes, 4) - 1) * 60 + (Byte(bytes, 5) - 1)) * 60 + (Byte(bytes, 6) - 1)
  }

  /** The date exists in its year and so does the time of day. */
  predicate DateExists(bytes: seq<uint8>)
    requires |bytes| >= DATE_BYTES
  {
    && YearField(bytes) != 0 && -4712 <= YearField(bytes) <= 9999
    && Calendar.Valid(DateField(bytes))
    && 1 <= bytes[4] <= 24 && 1 <= bytes[5] <= 60 && 1 <= bytes[6] <= 60
  }

  function DateMicros(bytes: seq<uint8>): int
    requires |bytes| >= DATE_BYTES && DateExists(bytes)
  {
    DaysFromCivil(DateField(bytes)) * MICROS_PER_DAY + SecondField(bytes) * MICROS_PER_SECOND
  }

  /** Accepts a date and time exactly when it exists: converting the date to a day number and back is as good
      as looking up the length of the month. */
  method DecodeOracleDate(bytes: seq<uint8>) returns (micros: Option<int>)
    requires |bytes| >= DATE_BYTES
    ensures micros == if DateExists(bytes) then Some(DateMicros(bytes)) else None
  {
    hide CivilFromDays, DaysFromCivil;
    var oracleYear := YearField(bytes);
    if oracleYear == 0 || oracleYear < -4712 || oracleYear > 9999 {
      return None;
    }
    var year := if oracleYear < 0 then oracleYear + 1 else oracleYear;
    var month, day := bytes[2], bytes[3];
    var hour, minute, second := Byte(bytes, 4) - 1, Byte(bytes, 5) - 1, Byte(bytes, 6) - 1;
    if month < 1 || month > 12 || day < 1 || day > 31 || hour < 0 || hour > 23 || minute < 0 || minute > 59
       || second < 0 || second > 59 {
      return None;
    }
    var date := Date(year, month, day);
    var days := DaysFromCivil(date);
    CivilOfDays(date);
    if CivilFromDays(days) != date {
      return None;
    }
    return Some(days * MICROS_PER_DAY + ((hour * 60 + minute) * 60 + second) * MICROS_PER_SECOND);
  }

  function NanoField(bytes: seq<uint8>): nat
    requires |bytes| == TIMESTAMP_BYTES
  {
    Byte(bytes, 7) * 0x1000000 + Byte(bytes, 8) * 0x10000 + Byte(bytes, 9) * 0x100 + Byte(bytes, 10)
  }

  /** What the bytes of a TIMESTAMP mean, nanoseconds truncated to microseconds. */
  function TimestampMeaning(bytes: seq<uint8>): Option<int> {
    if |bytes| != DATE_BYTES && |bytes| != TIMESTAMP_BYTES then None
    else if !DateExists(bytes) then None
    else if |bytes| == DATE_BYTES then Some(DateMicros(bytes))
    else if NanoField(bytes) >= 1_000_000_000 then None
    else Some(DateMicros(bytes) + NanoField(bytes) / 1000)
  }

  method DecodeOracleTimestamp(bytes: seq<uint8>) returns (micros: Option<int>)
    ensures micros == TimestampMeaning(bytes)
  {
    hide DateExists, DateMicros;
    if |bytes| != DATE_BYTES && |bytes| != TIMESTAMP_BYTES {
      return None;
    }
    var value := DecodeOracleDate(bytes);
    if value.None? {
      return None;
    }
    if |bytes| == TIMESTAMP_BYTES {
      var nanos := Byte(bytes, 7) * 0x1000000 + Byte(bytes, 8) * 0x10000 + Byte(bytes, 9) * 0x100 + Byte(bytes, 10);
      if nanos >= 1_000_000_000 {
        return None;
      }
      value := Some(value.value + nanos / 1000);
    }
    return value;
  }

  lemma DateRead(d: Date, second: nat, rest: seq<uint8>)
    requires Storable(d, second)
    ensures var b := DateBytes(d, second) + rest;
            DateExists(b) && DateField(b) == d && SecondField(b) == second
  {
    hide MonthLength;
  }

  lemma NanosRead(date: seq<uint8>, nanos: uint32)
    requires |date| == DATE_BYTES
    ensures NanoField(date + NanoBytes(nanos)) == nanos
  {
    FourBytes(nanos);
    var b := date + NanoBytes(nanos);
    assert forall i :: 0 <= i < 4 ==> b[7 + i] == NanoBytes(nanos)[i];
  }

  lemma FourBytes(n: nat)
    ensures n / 0x1000000 * 0x1000000 + n / 0x10000 % 0x100 * 0x10000 + n / 0x100 % 0x100 * 0x100 + n % 0x100 == n
  {
    var n1, n2, n3 := n / 0x100, n / 0x100 / 0x100, n / 0x100 / 0x100 / 0x100;
    DivModUnique(n, 0x10000, n2, n1 % 0x100 * 0x100 + n % 0x100);
    DivModUnique(n, 0x1000000, n3, n2 % 0x100 * 0x10000 + n1 % 0x100 * 0x100 + n % 0x100);
  }

  lemma EncodedDateRead(days: int, microsOfDay: nat, rest: seq<uint8>)
    requires -719162 <= days <= 2932896 && microsOfDay < MICROS_PER_DAY
    ensures var b := EncodedDate(days, microsOfDay) + rest;
            && |b| == DATE_BYTES + |rest| && DateExists(b)
            && DateMicros(b) == days * MICROS_PER_DAY + microsOfDay - microsOfDay % MICROS_PER_SECOND
  {
    hide CivilFromDays, DaysFromCivil, DateBytes, DateExists, DateField, SecondField;
    FourDigitYears(days);
    DaysOfCivil(days);
    DivMod(microsOfDay, MICROS_PER_SECOND);
    DateRead(CivilFromDays(days), microsOfDay / MICROS_PER_SECOND, rest);
  }

  /** A TIMESTAMP read back is the instant it was written from; it is short exactly without a fraction. */
  lemma TimestampRoundTrip(micros: int)
    requires -719162 * MICROS_PER_DAY <= micros < 2932897 * MICROS_PER_DAY
    ensures var bytes := EncodedTimestamp(SplitMicros(micros).0, SplitMicros(micros).1);
            && TimestampMeaning(bytes) == Some(micros)
            && |bytes| == (if micros % MICROS_PER_SECOND == 0 then DATE_BYTES else TIMESTAMP_BYTES)
  {
    hide EncodedDate, NanoBytes, NanoField, DateExists, DateMicros;
    var (days, microsOfDay) := SplitMicros(micros);
    var second, fraction := microsOfDay / MICROS_PER_SECOND, microsOfDay % MICROS_PER_SECOND;
    DivMod(micros - -719162 * MICROS_PER_DAY, MICROS_PER_DAY);
    DivMod(microsOfDay, MICROS_PER_SECOND);
    DivModUnique(micros, MICROS_PER_SECOND, days * 86400 + second, fraction);
    EncodedDates(days, microsOfDay);
    var date := EncodedDate(days, microsOfDay);
    if fraction == 0 {
      EncodedDateRead(days, microsOfDay, []);
      assert date + [] == date;
    } else {
      EncodedDateRead(days, microsOfDay, NanoBytes(fraction * 1000));
      NanosRead(date, fraction * 1000);
    }
  }

  /** A DATE read back has lost the fraction of a second and nothing else. */
  lemma DateRoundTrip(micros: int)
    requires -719162 * MICROS_PER_DAY <= micros < 2932897 * MICROS_PER_DAY
    ensures var bytes := EncodedDate(SplitMicros(micros).0, SplitMicros(micros).1);
            |bytes| == DATE_BYTES && DateExists(bytes) && DateMicros(bytes) == micros - micros % MICROS_PER_SECOND
  {
    hide EncodedDate, DateExists, DateMicros;
    var (days, microsOfDay) := SplitMicros(micros);
    DivMod(microsOfDay, MICROS_PER_SECOND);
    DivModUnique(micros, MICROS_PER_SECOND, days * 86400 + microsOfDay / MICROS_PER_SECOND,
                 microsOfDay % MICROS_PER_SECOND);
    EncodedDateRead(days, microsOfDay, []);
    assert EncodedDate(days, microsOfDay) + [] == EncodedDate(days, microsOfDay);
  }

  /** Bytes of an existing date after Christ are what the encoder writes for it exactly when the year is split
      into centuries and a year of the century. */
  lemma DecodeThenEncode(bytes: seq<uint8>)
    requires |bytes| == DATE_BYTES && DateExists(bytes) && YearField(bytes) > 0
    ensures var (days, microsOfDay) := SplitMicros(DateMicros(bytes));
            EncodedDate(days, microsOfDay) == bytes <==> 100 <= bytes[1] < 200
  {
    hide CivilFromDays, DaysFromCivil, DateBytes;
    var d, second := DateField(bytes), SecondField(bytes);
    var days := DaysFromCivil(d);
    CivilOfDays(d);
    DivModUnique(DateMicros(bytes), MICROS_PER_DAY, days, second * MICROS_PER_SECOND);
    DivModUnique(second * MICROS_PER_SECOND, MICROS_PER_SECOND, second, 0);
    FieldsOfBytes(bytes);
  }

  /** 1 January 2090 with its year split as 21 centuries less 10 years: accepted, but not written that way. */
  lemma OtherSpelling()
    ensures var bytes: seq<uint8> := [121, 90, 1, 1, 1, 1, 1];
            && DateExists(bytes) && DateField(bytes) == Date(2090, 1, 1)
            && EncodedDate(SplitMicros(DateMicros(bytes)).0, SplitMicros(DateMicros(bytes)).1) != bytes
  {
    hide DaysFromCivil, EncodedDate, SplitMicros;
    DecodeThenEncode([121, 90, 1, 1, 1, 1, 1]);
  }

  lemma FieldsOfBytes(bytes: seq<uint8>)
    requires |bytes| == DATE_BYTES && DateExists(bytes) && YearField(bytes) > 0
    ensures SecondField(bytes) >= 0 && Storable(DateField(bytes), SecondField(bytes))
    ensures DateBytes(DateField(bytes), SecondField(bytes)) == bytes <==> 100 <= bytes[1] < 200
  {
    var h, m, s := Byte(bytes, 4) - 1, Byte(bytes, 5) - 1, Byte(bytes, 6) - 1;
    DivModUnique(SecondField(bytes), 60, h * 60 + m, s);
    DivModUnique(h * 60 + m, 60, h, m);
    DivModUnique(SecondField(bytes), 3600, h, m * 60 + s);
    var y := YearField(bytes);
    if 100 <= bytes[1] < 200 {
      DivModUnique(y, 100, Byte(bytes, 0) - 100, Byte(bytes, 1) - 100);
    }
  }
}
