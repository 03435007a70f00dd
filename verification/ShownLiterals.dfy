/** The literals shown for binds in EXPLAIN denote the constants of the filter. */
module ShownLiterals {
  import opened Machine
  import opened NumberReading
  import opened NumberText
  import opened NumberBinds
  import opened Calendar
  import opened OracleDate
  import opened DateTimes
  import opened SqlConditions
  import opened SqlParser
  import opened FilterValues
  import opened FilterSql
  import opened FilterBuilder
  import opened SameFragments
  import OracleNumber

  // What a literal denotes

  /** The text of a string literal behind its opening quote: quotes inside are doubled, the last one ends it. */
  function ReadQuoted(t: string): Option<string> {
    if t == "" then None
    else if t[0] != '\'' then
      match ReadQuoted(t[1..])
      case None => None
      case Some(rest) => Some([t[0]] + rest)
    else if |t| == 1 then Some("")
    else if t[1] != '\'' then None
    else
      match ReadQuoted(t[2..])
      case None => None
      case Some(rest) => Some("'" + rest)
  }

  /** A date or time of this many characters, read with what the others would be. */
  function ReadInstant(t: string, chars: nat, others: string, close: string): Option<Value> {
    if |t| < chars || t[chars..] != close then None
    else
      match ReadDateTime(t[..chars] + others)
      case None => None
      case Some(micros) => Some(Time(micros))
  }

  /** `value` gives the double that a text denotes. */
  function ReadLiteral(t: string, value: string -> Double): Option<Value> {
    if Strip(t, "DATE '").Some? then ReadInstant(Strip(t, "DATE '").value, 10, " 00:00:00.000000", "'")
    else if Strip(t, "TO_DATE('").Some? then
      ReadInstant(Strip(t, "TO_DATE('").value, 19, ".000000", "', 'YYYY-MM-DD HH24:MI:SS')")
    else if Strip(t, "TIMESTAMP '").Some? then ReadInstant(Strip(t, "TIMESTAMP '").value, 26, "", "'")
    else if Strip(t, "'").Some? then
      match ReadQuoted(Strip(t, "'").value)
      case None => None
      case Some(text) => Some(Str(text))
    else if t != "" && t[|t| - 1] == 'd' then Some(Dbl(value(t[..|t| - 1])))
    else
      match ReadNumeral(t)
      case None => None
      case Some(r) => Some(Num(OracleNumber.Finite(r.negative, r.digits, 0 - r.scale)))
  }

  // The literals shown

  lemma {:induction false} QuotedReads(text: string)
    ensures ReadQuoted(DoubledQuotes(text) + "'") == Some(text)
  {
    if text == "" {
      assert DoubledQuotes(text) + "'" == "'";
    } else {
      QuotedReads(text[1..]);
      var first, rest := if text[0] == '\'' then "''" else [text[0]], DoubledQuotes(text[1..]) + "'";
      assert DoubledQuotes(text) + "'" == first + rest;
      assert (first + rest)[|first|..] == rest;
      assert [text[0]] + text[1..] == text;
    }
  }

  /** A text with these beginnings is no other literal. */
  lemma NotDated(t: string)
    requires t != "" && t[0] != 'D' && t[0] != 'T'
    ensures Strip(t, "DATE '") == None && Strip(t, "TO_DATE('") == None && Strip(t, "TIMESTAMP '") == None
  {
    StripNot(t, "DATE '", 0);
    StripNot(t, "TO_DATE('", 0);
    StripNot(t, "TIMESTAMP '", 0);
  }

  lemma TextLiteral(text: string, value: string -> Double)
    ensures ReadLiteral(SqlStringLiteral(text), value) == Some(Str(text))
  {
    hide DoubledQuotes, ReadQuoted, Strip;
    var t := SqlStringLiteral(text);
    NotDated(t);
    assert t == "'" + (DoubledQuotes(text) + "'");
    StripOf("'", DoubledQuotes(text) + "'");
    QuotedReads(text);
  }

  lemma NumberLiteralReads(v: int, scale: uint8, value: string -> Double)
    ensures ReadLiteral(BindOfNumber(v, scale).display, value)
         == Some(Num(OracleNumber.Finite(v < 0, Abs(v), 0 - scale)))
  {
    hide LiteralText, ReadNumeral, Strip, BindOfNumber;
    var t := LiteralText(Abs(v), v < 0, scale);
    NumberShown(v, scale);
    NumberLiteral(Abs(v), v < 0, scale);
    LiteralReads(Abs(v), v < 0, scale);
    NotDated(t);
    StripNot(t, "'", 0);
    assert t[|t| - 1] != 'd';
  }

  lemma DoubleLiteralReads(shown: string, value: string -> Double)
    requires ShownFits(shown)
    ensures ReadLiteral(shown + "d", value) == Some(Dbl(value(shown)))
  {
    hide Strip;
    var t := shown + "d";
    NotDated(t);
    StripNot(t, "'", 0);
    assert t[..|t| - 1] == shown;
  }

  /** Without a fraction, or without a time of day, the end of an instant's text is known. */
  lemma InstantEnds(micros: int)
    requires HasFourDigitYear(micros) && micros % MICROS_PER_SECOND == 0
    ensures InstantText(micros)[..19] + ".000000" == InstantText(micros)
    ensures SplitMicros(micros).1 / MICROS_PER_SECOND == 0 ==>
              InstantText(micros)[..10] + " 00:00:00.000000" == InstantText(micros)
  {
    hide CivilFromDays, DatePart, TimePart;
    var (days, microsOfDay) := SplitMicros(micros);
    DateTimeRoundTrip(micros);
    WholeSeconds(micros);
    var date, time := DatePart(CivilFromDays(days)), TimePart(microsOfDay / MICROS_PER_SECOND, 0);
    assert InstantText(micros) == date + time;
    DatePunctuated(CivilFromDays(days));
    NoFraction(microsOfDay / MICROS_PER_SECOND);
    assert (date + time)[..19] + ".000000" == date + (time[..8] + ".000000");
    if microsOfDay / MICROS_PER_SECOND == 0 {
      assert date == date[..10] + " ";
      assert (date + time)[..10] == date[..10];
      assert date[..10] + " 00:00:00.000000" == (date[..10] + " ") + "00:00:00.000000";
    }
  }

  lemma WholeSeconds(micros: int)
    requires micros % MICROS_PER_SECOND == 0
    ensures SplitMicros(micros).1 % MICROS_PER_SECOND == 0
  {}

  lemma NoFraction(second: nat)
    ensures TimePart(second, 0)[..8] + ".000000" == TimePart(second, 0)
    ensures second == 0 ==> TimePart(second, 0) == "00:00:00.000000"
  {
    var h, m, s := Two(second / 3600), Two(second / 60 % 60), Two(second % 60);
    assert TimePart(second, 0)
        == [h[0], h[1], ':', m[0], m[1], ':', s[0], s[1], '.', '0', '0', '0', '0', '0', '0'];
  }

  lemma DateLiteralReads(micros: int, value: string -> Double)
    requires HasFourDigitYear(micros) && micros % MICROS_PER_SECOND == 0
    ensures BindOfDate(micros).Some? && ReadLiteral(BindOfDate(micros).value.display, value) == Some(Time(micros))
  {
    hide InstantText, EncodedDate, ReadDateTime, DateTimeText, CivilFromDays, Strip;
    var text, t := InstantText(micros), BindOfDate(micros).value.display;
    DateTimeRoundTrip(micros);
    TextReadsBack(micros);
    InstantEnds(micros);
    if SplitMicros(micros).1 / MICROS_PER_SECOND == 0 {
      assert t == "DATE '" + (text[..10] + "'");
      StripOf("DATE '", text[..10] + "'");
      assert (text[..10] + "'")[..10] == text[..10] && (text[..10] + "'")[10..] == "'";
    } else {
      var rest := text[..19] + "', 'YYYY-MM-DD HH24:MI:SS')";
      assert t == "TO_DATE('" + rest;
      StripNot(t, "DATE '", 0);
      StripOf("TO_DATE('", rest);
      assert rest[..19] == text[..19] && rest[19..] == "', 'YYYY-MM-DD HH24:MI:SS')";
    }
  }

  lemma TextReadsBack(micros: int)
    requires HasFourDigitYear(micros)
    ensures ReadDateTime(InstantText(micros)) == Some(micros)
  {
    hide ReadDateTime, DateTimeText, CivilFromDays;
    DateTimeRoundTrip(micros);
  }

  lemma TimestampLiteralReads(micros: int, value: string -> Double)
    requires HasFourDigitYear(micros)
    ensures BindOfTimestamp(micros).Some?
    ensures ReadLiteral("TIMESTAMP " + BindOfTimestamp(micros).value.display, value) == Some(Time(micros))
  {
    hide InstantText, ReadDateTime, Strip, DoubledQuotes;
    var text := InstantText(micros);
    TextReadsBack(micros);
    NoQuotes(micros);
    PlainQuotes(text);
    var t := "TIMESTAMP " + SqlStringLiteral(text);
    assert t == "TIMESTAMP '" + (text + "'");
    StripNot(t, "DATE '", 0);
    StripNot(t, "TO_DATE('", 1);
    StripOf("TIMESTAMP '", text + "'");
    assert (text + "'")[..26] == text && (text + "'")[26..] == "'" && text + "" == text;
  }

  lemma NoQuotes(micros: int)
    requires HasFourDigitYear(micros)
    ensures '\'' !in InstantText(micros)
  {
    hide DateTimeText, CivilFromDays;
    DateTimeRoundTrip(micros);
    TextPunctuated(CivilFromDays(SplitMicros(micros).0), SplitMicros(micros).1);
  }

  lemma {:induction false} PlainQuotes(text: string)
    requires '\'' !in text
    ensures DoubledQuotes(text) == text
  {
    if text != "" {
      PlainQuotes(text[1..]);
      assert text == [text[0]] + text[1..];
    }
  }

  /** What is shown for an operand denotes the constant that is bound for it. */
  lemma ShownMeans(info: ColumnInfo, charset: string, op: FilterOp, k: FilterConstant, binds: seq<BindValue>, n: nat,
                   value: string -> Double)
    requires OperandOf(info, charset, op, k).Some? && ConstantShown(k, value)
    requires 1 <= n <= |binds| && binds[n - 1] == OperandOf(info, charset, op, k).value.bind
    ensures ReadLiteral(Shown(SlotFor(OperandOf(info, charset, op, k).value, n), binds), value)
         == Some(ConstantValue(k))
  {
    hide ReadLiteral, BindOfNumber, BindOfDate, BindOfTimestamp, SqlStringLiteral, ExactText, ShownFits;
    match info.kind
    case NumberKind =>
      if k.IntegerConstant? {
        NumberLiteralReads(k.i64, 0, value);
      } else {
        NumberLiteralReads(k.i128.Value(), k.scale, value);
      }
      assert "" + binds[n - 1].display == binds[n - 1].display;
    case DateKind =>
      DateYears(ConstantMicros(k).value);
      DateLiteralReads(ConstantMicros(k).value, value);
      assert "" + binds[n - 1].display == binds[n - 1].display;
    case TimestampKind =>
      TimestampYears(ConstantMicros(k).value);
      TimestampLiteralReads(ConstantMicros(k).value, value);
    case CharKind =>
      TextLiteral(k.text, value);
      assert "" + binds[n - 1].display == binds[n - 1].display;
    case BinaryFloatKind => DoubleMeans(k, binds, n, value);
    case BinaryDoubleKind => DoubleMeans(k, binds, n, value);
  }

  lemma DoubleMeans(k: FilterConstant, binds: seq<BindValue>, n: nat, value: string -> Double)
    requires DoubleOperand(k).Some? && ConstantShown(k, value)
    requires 1 <= n <= |binds| && binds[n - 1] == DoubleOperand(k).value.bind
    ensures ReadLiteral(Shown(Bind(n), binds), value) == Some(ConstantValue(k))
  {
    hide ReadLiteral, ShownFits;
    DoubleLiteralReads(k.shown, value);
    assert "" + binds[n - 1].display == binds[n - 1].display;
  }

  lemma DateYears(micros: int)
    ensures BindOfDate(micros).Some? <==> HasFourDigitYear(micros)
  {
    hide InstantText, EncodedDate;
  }

  lemma TimestampYears(micros: int)
    ensures BindOfTimestamp(micros).Some? <==> HasFourDigitYear(micros)
  {
    hide InstantText;
  }
}
