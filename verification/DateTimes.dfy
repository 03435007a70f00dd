/** Dates and times as text, YYYY-MM-DD HH24:MI:SS.FF6, and the literals shown for bound dates. */
module DateTimes {
  import opened Digits
  import opened Calendar
  import opened NumberReading
  import opened OracleDate

  const TEXT_CHARS: nat := 26

  function Two(v: nat): (t: string)
    ensures |t| == 2
  {
    ['0' + (v / 10 % 10) as char, '0' + (v % 10) as char]
  }

  function DatePart(d: Date): (t: string)
    requires 0 <= d.year
    ensures |t| == 11
  {
    Two(d.year / 100) + Two(d.year % 100) + "-" + Two(d.month) + "-" + Two(d.day) + " "
  }

  function TimePart(second: nat, fraction: nat): (t: string)
    ensures |t| == 15
  {
    Two(second / 3600) + ":" + Two(second / 60 % 60) + ":" + Two(second % 60) + "."
    + Two(fraction / 10000) + Two(fraction / 100 % 100) + Two(fraction % 100)
  }

  /** The 26 characters of a date and the microseconds of its day. */
  function DateTimeText(d: Date, micros: nat): (t: string)
    requires 0 <= d.year
    ensures |t| == TEXT_CHARS
  {
    DatePart(d) + TimePart(micros / MICROS_PER_SECOND, micros % MICROS_PER_SECOND)
  }

  method Put2(out: array<char>, at: nat, v: nat)
    requires at + 2 <= out.Length && v < 100
    modifies out
    ensures out[..at + 2] == old(out[..at]) + Two(v)
  {
    out[at] := '0' + (v / 10) as char;
    out[at + 1] := '0' + (v % 10) as char;
  }

  method PutChar(out: array<char>, at: nat, c: string)
    requires at < out.Length && |c| == 1
    modifies out
    ensures out[..at + 1] == old(out[..at]) + c
  {
    out[at] := c[0];
  }

  /** Fills in the text of a day and time of day; refuses years that do not have four digits. */
  method FormatDateTimeText(days: int, microsOfDay: int, out: array<char>) returns (ok: bool)
    requires 0 <= microsOfDay < MICROS_PER_DAY && out.Length >= TEXT_CHARS
    modifies out
    ensures ok <==> -719162 <= days <= 2932896
    ensures ok ==> CivilFromDays(days).year >= 0 && out[..TEXT_CHARS] == DateTimeText(CivilFromDays(days), microsOfDay)
    ensures !ok ==> out[..] == old(out[..])
  {
    hide CivilFromDays;
    var d := CivilFromDays(days);
    FourDigitYears(days);
    DaysOfCivil(days);
    if d.year < 1 || d.year > 9999 {
      return false;
    }
    WriteDate(d, out);
    WriteTime(microsOfDay / MICROS_PER_SECOND, microsOfDay % MICROS_PER_SECOND, out);
    return true;
  }

  method WriteDate(d: Date, out: array<char>)
    requires 1 <= d.year <= 9999 && d.month < 100 && d.day < 100 && out.Length >= TEXT_CHARS
    modifies out
    ensures out[..11] == DatePart(d)
  {
    hide Two;
    assert out[..0] == "";
    Put2(out, 0, d.year / 100);
    Put2(out, 2, d.year % 100);
    PutChar(out, 4, "-");
    Put2(out, 5, d.month);
    PutChar(out, 7, "-");
    Put2(out, 8, d.day);
    PutChar(out, 10, " ");
  }

  method WriteTime(second: nat, fraction: nat, out: array<char>)
    requires second < 86400 && fraction < MICROS_PER_SECOND && out.Length >= TEXT_CHARS
    modifies out
    ensures out[..TEXT_CHARS] == old(out[..11]) + TimePart(second, fraction)
  {
    hide Two;
    ghost var date := out[..11];
    Put2(out, 11, second / 3600);
    PutChar(out, 13, ":");
    Put2(out, 14, second / 60 % 60);
    PutChar(out, 16, ":");
    Put2(out, 17, second % 60);
    PutChar(out, 19, ".");
    Put2(out, 20, fraction / 10000);
    Put2(out, 22, fraction / 100 % 100);
    Put2(out, 24, fraction % 100);
    Regroup(date, Two(second / 3600), Two(second / 60 % 60), Two(second % 60), Two(fraction / 10000),
            Two(fraction / 100 % 100), Two(fraction % 100));
  }

  lemma Regroup(date: string, h: string, m: string, s: string, a: string, b: string, c: string)
    ensures date + h + ":" + m + ":" + s + "." + a + b + c == date + (h + ":" + m + ":" + s + "." + a + b + c)
  {}

  /** The two digits at a place of a text. */
  function TwoAt(t: string, i: nat): nat
    requires i + 1 < |t|
  {
    if IsDigitPair(t, i) then (t[i] - '0') as nat * 10 + (t[i + 1] - '0') as nat else 0
  }

  predicate IsDigitPair(t: string, i: nat)
    requires i + 1 < |t|
  {
    '0' <= t[i] <= '9' && '0' <= t[i + 1] <= '9'
  }

  /** Digits and separators where the format has them. */
  predicate Punctuated(t: string)
    requires |t| == TEXT_CHARS
  {
    && t[4] == '-' && t[7] == '-' && t[10] == ' ' && t[13] == ':' && t[16] == ':' && t[19] == '.'
    && forall i :: 0 <= i < |t| && i !in {4, 7, 10, 13, 16, 19} ==> '0' <= t[i] <= '9'
  }

  /** TO_TIMESTAMP of such a text: microseconds since 1970-01-01, if the date and time exist. */
  function ReadDateTime(t: string): Option<int> {
    if |t| != TEXT_CHARS || !Punctuated(t) then None
    else
      var d := Date(TwoAt(t, 0) * 100 + TwoAt(t, 2), TwoAt(t, 5), TwoAt(t, 8));
      var second := (TwoAt(t, 11) * 60 + TwoAt(t, 14)) * 60 + TwoAt(t, 17);
      if !Calendar.Valid(d) || TwoAt(t, 11) > 23 || TwoAt(t, 14) > 59 || TwoAt(t, 17) > 59 then None
      else Some(DaysFromCivil(d) * MICROS_PER_DAY + second * MICROS_PER_SECOND
                + TwoAt(t, 20) * 10000 + TwoAt(t, 22) * 100 + TwoAt(t, 24))
  }

  lemma TwoReads(v: nat, before: string, after: string)
    requires v < 100
    ensures TwoAt(before + Two(v) + after, |before|) == v
  {
    var t := before + Two(v) + after;
    assert t[|before|] == Two(v)[0] && t[|before| + 1] == Two(v)[1];
  }

  lemma DateFieldsRead(d: Date, rest: string)
    requires 1 <= d.year <= 9999 && d.month < 100 && d.day < 100
    ensures var t := DatePart(d) + rest;
            TwoAt(t, 0) == d.year / 100 && TwoAt(t, 2) == d.year % 100 && TwoAt(t, 5) == d.month && TwoAt(t, 8) == d.day
  {
    hide Two, TwoAt;
    var t := DatePart(d) + rest;
    FieldAt(t, 0, d.year / 100);
    FieldAt(t, 2, d.year % 100);
    FieldAt(t, 5, d.month);
    FieldAt(t, 8, d.day);
  }

  lemma TimeFieldsRead(date: string, second: nat, fraction: nat)
    requires |date| == 11 && second < 86400 && fraction < MICROS_PER_SECOND
    ensures var t := date + TimePart(second, fraction);
            && TwoAt(t, 11) == second / 3600 && TwoAt(t, 14) == second / 60 % 60
            && TwoAt(t, 17) == second % 60 && TwoAt(t, 20) == fraction / 10000
            && TwoAt(t, 22) == fraction / 100 % 100 && TwoAt(t, 24) == fraction % 100
  {
    hide Two, TwoAt;
    var u, t := TimePart(second, fraction), date + TimePart(second, fraction);
    TimeFieldAt(date, u, 0, second / 3600);
    TimeFieldAt(date, u, 3, second / 60 % 60);
    TimeFieldAt(date, u, 6, second % 60);
    TimeFieldAt(date, u, 9, fraction / 10000);
    TimeFieldAt(date, u, 11, fraction / 100 % 100);
    TimeFieldAt(date, u, 13, fraction % 100);
  }

  lemma TimeFieldAt(date: string, time: string, i: nat, v: nat)
    requires |date| == 11 && i + 2 <= |time| && v < 100 && time[i..i + 2] == Two(v)
    ensures TwoAt(date + time, 11 + i) == v
  {
    hide Two, TwoAt;
    assert (date + time)[11 + i..11 + i + 2] == time[i..i + 2];
    FieldAt(date + time, 11 + i, v);
  }

  /** The fields of a text are the fields it was written from. */
  lemma FieldsRead(d: Date, micros: nat)
    requires 1 <= d.year <= 9999 && d.month < 100 && d.day < 100 && micros < MICROS_PER_DAY
    ensures var t, second, fraction := DateTimeText(d, micros), micros / MICROS_PER_SECOND, micros % MICROS_PER_SECOND;
            && TwoAt(t, 0) == d.year / 100 && TwoAt(t, 2) == d.year % 100 && TwoAt(t, 5) == d.month
            && TwoAt(t, 8) == d.day && TwoAt(t, 11) == second / 3600 && TwoAt(t, 14) == second / 60 % 60
            && TwoAt(t, 17) == second % 60 && TwoAt(t, 20) == fraction / 10000
            && TwoAt(t, 22) == fraction / 100 % 100 && TwoAt(t, 24) == fraction % 100
  {
    hide TwoAt, DatePart, TimePart;
    DateFieldsRead(d, TimePart(micros / MICROS_PER_SECOND, micros % MICROS_PER_SECOND));
    TimeFieldsRead(DatePart(d), micros / MICROS_PER_SECOND, micros % MICROS_PER_SECOND);
  }

  lemma FieldAt(t: string, i: nat, v: nat)
    requires i + 2 <= |t| && v < 100 && t[i..i + 2] == Two(v)
    ensures TwoAt(t, i) == v
  {
    TwoReads(v, t[..i], t[i + 2..]);
    assert t == t[..i] + Two(v) + t[i + 2..];
  }

  lemma DatePunctuated(d: Date)
    requires 0 <= d.year
    ensures var t := DatePart(d);
            && t[4] == '-' && t[7] == '-' && t[10] == ' '
            && forall i :: 0 <= i < 11 && i !in {4, 7, 10} ==> '0' <= t[i] <= '9'
  {
    var a, b, c, e := Two(d.year / 100), Two(d.year % 100), Two(d.month), Two(d.day);
    assert DatePart(d) == [a[0], a[1], b[0], b[1], '-', c[0], c[1], '-', e[0], e[1], ' '];
  }

  lemma TimePunctuated(second: nat, fraction: nat)
    ensures var t := TimePart(second, fraction);
            && t[2] == ':' && t[5] == ':' && t[8] == '.'
            && forall i :: 0 <= i < 15 && i !in {2, 5, 8} ==> '0' <= t[i] <= '9'
  {
    var h, m, s := Two(second / 3600), Two(second / 60 % 60), Two(second % 60);
    var a, b, c := Two(fraction / 10000), Two(fraction / 100 % 100), Two(fraction % 100);
    assert TimePart(second, fraction)
        == [h[0], h[1], ':', m[0], m[1], ':', s[0], s[1], '.', a[0], a[1], b[0], b[1], c[0], c[1]];
  }

  lemma TextPunctuated(d: Date, micros: nat)
    requires 0 <= d.year
    ensures Punctuated(DateTimeText(d, micros))
  {
    hide DatePart, TimePart;
    var date, time := DatePart(d), TimePart(micros / MICROS_PER_SECOND, micros % MICROS_PER_SECOND);
    DatePunctuated(d);
    TimePunctuated(micros / MICROS_PER_SECOND, micros % MICROS_PER_SECOND);
    forall i | 0 <= i < TEXT_CHARS ensures (date + time)[i] == if i < 11 then date[i] else time[i - 11] {}
  }

  /** The text of an instant reads back as the instant. */
  lemma DateTimeRoundTrip(micros: int)
    requires -719162 * MICROS_PER_DAY <= micros < 2932897 * MICROS_PER_DAY
    ensures var (days, microsOfDay) := SplitMicros(micros);
            CivilFromDays(days).year >= 0
            && ReadDateTime(DateTimeText(CivilFromDays(days), microsOfDay)) == Some(micros)
  {
    hide CivilFromDays, DaysFromCivil, DateTimeText, TwoAt, Punctuated;
    var (days, microsOfDay) := SplitMicros(micros);
    DivMod(micros - -719162 * MICROS_PER_DAY, MICROS_PER_DAY);
    FourDigitYears(days);
    DaysOfCivil(days);
    var d := CivilFromDays(days);
    TextPunctuated(d, microsOfDay);
    FieldsRead(d, microsOfDay);
    FieldsAddUp(d.year, microsOfDay);
  }

  lemma FieldsAddUp(year: nat, micros: nat)
    requires micros < MICROS_PER_DAY
    ensures year / 100 * 100 + year % 100 == year
    ensures var second, fraction := micros / MICROS_PER_SECOND, micros % MICROS_PER_SECOND;
            && second / 3600 <= 23 && second / 60 % 60 <= 59 && second % 60 <= 59
            && ((second / 3600 * 60 + second / 60 % 60) * 60 + second % 60) * MICROS_PER_SECOND
               + fraction / 10000 * 10000 + fraction / 100 % 100 * 100 + fraction % 100 == micros
  {
    var second, fraction := micros / MICROS_PER_SECOND, micros % MICROS_PER_SECOND;
    DivMod(micros, MICROS_PER_SECOND);
    DivModUnique(second, 3600, second / 60 / 60, second / 60 % 60 * 60 + second % 60);
    DivModUnique(fraction, 10000, fraction / 100 / 100, fraction / 100 % 100 * 100 + fraction % 100);
  }
}
