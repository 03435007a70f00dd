/** Fragments with the same SQL text and the same text shown are the same filter: literals are uniquely readable. */
module SameFragments {
  import opened Machine
  import opened Digits
  import opened NumberReading
  import opened NumberText
  import opened NumberBinds
  import opened Calendar
  import opened OracleDate
  import opened DateTimes
  import opened SqlConditions
  import opened SqlParser
  import opened FilterValues
  import opened OracleColumns
  import opened FilterSql
  import opened FilterSoundness
  import opened FilterNumbering
  import opened FilterBuilder

  /** What follows a literal in the text shown. */
  predicate IsDelimiter(c: char) {
    c == ')' || c == ',' || c == ' '
  }

  /** The text of a double: an optional sign, digits, point and exponent. */
  predicate ShownFits(shown: string) {
    shown != "" && (shown[0] == '-' || '0' <= shown[0] <= '9')
    && forall i :: 0 <= i < |shown| ==> '0' <= shown[i] <= '9' || shown[i] in {'-', '+', '.', 'e'}
  }

  /** A bind as the translation makes it; `value` gives the double that a text denotes. */
  ghost predicate BindFits(b: BindValue, value: string -> Double) {
    match b.data
    case NumberData(_) => exists v: int, scale: uint8 :: b == BindOfNumber(v, scale)
    case DateData(_) => exists micros: int :: BindOfDate(micros) == Some(b)
    case TextData(_) => exists micros: int :: BindOfTimestamp(micros) == Some(b)
    case VarcharData(text) => b.display == SqlStringLiteral(text)
    case DoubleData(d, shown) => ShownFits(shown) && d == value(shown) && b.display == shown + "d"
  }

  /** Length of a text up to its closing quote, quotes inside being doubled. */
  function QuotedEnd(t: string): (n: nat)
    ensures n <= |t|
  {
    if t == "" then 0
    else if t[0] != '\'' then 1 + QuotedEnd(t[1..])
    else if |t| > 1 && t[1] == '\'' then 2 + QuotedEnd(t[2..])
    else 1
  }

  function PlainEnd(t: string): (n: nat)
    ensures n <= |t|
  {
    if t == "" || IsDelimiter(t[0]) then 0 else 1 + PlainEnd(t[1..])
  }

  /** Length of the literal at the start of a text. */
  function LiteralEnd(t: string): nat {
    if t == "" then 0
    else if t[0] == 'D' then 17
    else if t[0] == 'T' then 55
    else if t[0] == '\'' then 1 + QuotedEnd(t[1..])
    else PlainEnd(t)
  }

  lemma {:induction false} QuotedEndOf(text: string, rest: string)
    requires rest == "" || rest[0] != '\''
    ensures QuotedEnd(DoubledQuotes(text) + ("'" + rest)) == |DoubledQuotes(text)| + 1
  {
    var tail := "'" + rest;
    if text == "" {
      assert DoubledQuotes(text) + tail == tail;
    } else {
      QuotedEndOf(text[1..], rest);
      var first := if text[0] == '\'' then "''" else [text[0]];
      ConcatAssoc(first, DoubledQuotes(text[1..]), tail);
      QuotedEndStep(text[0], DoubledQuotes(text[1..]) + tail);
    }
  }

  lemma QuotedEndStep(c: char, t: string)
    ensures QuotedEnd((if c == '\'' then "''" else [c]) + t) == QuotedEnd(t) + if c == '\'' then 2 else 1
  {
    if c == '\'' {
      assert ("''" + t)[2..] == t;
    } else {
      assert ([c] + t)[1..] == t;
    }
  }

  lemma {:induction false} PlainEndOf(t: string, rest: string)
    requires (forall i :: 0 <= i < |t| ==> !IsDelimiter(t[i])) && (rest == "" || IsDelimiter(rest[0]))
    ensures PlainEnd(t + rest) == |t|
  {
    if t == "" {
      assert t + rest == rest;
    } else {
      PlainEndOf(t[1..], rest);
      assert (t + rest)[1..] == t[1..] + rest;
    }
  }

  /** A number literal holds no delimiter and starts with a sign or a digit. */
  lemma NumberLiteral(magnitude: nat, negative: bool, scale: nat)
    ensures var t := LiteralText(magnitude, negative, scale);
            && t != "" && (t[0] == '-' || '0' <= t[0] <= '9')
            && forall i :: 0 <= i < |t| ==> '0' <= t[i] <= '9' || t[i] in {'-', '.'}
  {
    hide LiteralText, Padded, Numeral;
    var p := Padded(magnitude, scale);
    LiteralIsNumeral(magnitude, negative, scale);
    NumeralChars(negative, p[..|p| - scale], p[|p| - scale..]);
  }

  lemma NumeralChars(negative: bool, whole: seq<nat>, fraction: seq<nat>)
    requires AllBelow(whole, 10) && AllBelow(fraction, 10) && whole != []
    ensures var t := Numeral(negative, whole, fraction);
            && t != "" && (t[0] == '-' || '0' <= t[0] <= '9')
            && forall i :: 0 <= i < |t| ==> '0' <= t[i] <= '9' || t[i] in {'-', '.'}
  {
    hide Chars;
    CharsRead(whole);
    CharsRead(fraction);
    var sign := if negative then "-" else "";
    var tail := if |fraction| > 0 then "." + Chars(fraction) else "";
    assert forall i :: 0 <= i < |Chars(whole)| ==> '0' <= Chars(whole)[i] <= '9';
    assert forall i :: 0 <= i < |tail| ==> '0' <= tail[i] <= '9' || tail[i] == '.';
    assert Numeral(negative, whole, fraction) == sign + Chars(whole) + tail;
  }

  lemma LiteralEndOf(b: BindValue, value: string -> Double, rest: string)
    requires BindFits(b, value) && rest != "" && IsDelimiter(rest[0])
    ensures LiteralEnd(b.display + rest) == |b.display|
  {
    hide InstantText, LiteralText, EncodedDate, DoubledQuotes, BindOfNumber, BindOfDate, BindOfTimestamp, ShownFits,
         QuotedEnd, PlainEnd;
    var t := b.display + rest;
    match b.data
    case NumberData(_) =>
      var v: int, scale: uint8 :| b == BindOfNumber(v, scale);
      NumberShown(v, scale);
      NumberLiteral(Abs(v), v < 0, scale);
      PlainEndOf(b.display, rest);
      assert t[0] == b.display[0];
    case DateData(_) =>
      var micros: int :| BindOfDate(micros) == Some(b);
      DateShown(micros);
      assert t[0] == b.display[0];
    case TextData(_) =>
      var micros: int :| BindOfTimestamp(micros) == Some(b);
      TimestampShown(micros);
      LiteralEndOfString(InstantText(micros), rest);
    case VarcharData(text) => LiteralEndOfString(text, rest);
    case DoubleData(_, shown) =>
      DoubleShown(shown);
      PlainEndOf(b.display, rest);
      assert t[0] == b.display[0];
  }

  lemma DoubleShown(shown: string)
    requires ShownFits(shown)
    ensures var t := shown + "d";
            && (t[0] == '-' || '0' <= t[0] <= '9') && forall i :: 0 <= i < |t| ==> !IsDelimiter(t[i])
  {}

  lemma NumberShown(v: int, scale: uint8)
    ensures BindOfNumber(v, scale).display == LiteralText(Abs(v), v < 0, scale)
  {}

  lemma DateShown(micros: int)
    requires BindOfDate(micros).Some?
    ensures var t, text := BindOfDate(micros).value.display, InstantText(micros);
            if SplitMicros(micros).1 / MICROS_PER_SECOND == 0 then |t| == 17 && t[0] == 'D' && t[6..16] == text[..10]
            else |t| == 55 && t[0] == 'T' && t[9..28] == text[..19]
  {
    hide InstantText, EncodedDate;
  }

  lemma TimestampShown(micros: int)
    requires BindOfTimestamp(micros).Some?
    ensures HasFourDigitYear(micros)
    ensures BindOfTimestamp(micros).value
         == BindValue(TextData(InstantText(micros)), SqlStringLiteral(InstantText(micros)))
  {}

  lemma LiteralEndOfString(text: string, rest: string)
    requires rest != "" && rest[0] != '\''
    ensures LiteralEnd(SqlStringLiteral(text) + rest) == |SqlStringLiteral(text)|
  {
    hide DoubledQuotes;
    QuotedEndOf(text, rest);
    var t := SqlStringLiteral(text) + rest;
    assert t[1..] == DoubledQuotes(text) + ("'" + rest);
  }

  lemma {:induction false} DoubledInjective(a: string, b: string)
    requires DoubledQuotes(a) == DoubledQuotes(b)
    ensures a == b
  {
    if a != "" && b != "" {
      var n := if a[0] == '\'' then 2 else 1;
      assert DoubledQuotes(a)[0] == a[0] && DoubledQuotes(b)[0] == b[0];
      assert DoubledQuotes(a)[n..] == DoubledQuotes(a[1..]) && DoubledQuotes(b)[n..] == DoubledQuotes(b[1..]);
      DoubledInjective(a[1..], b[1..]);
      assert a == [a[0]] + a[1..] && b == [b[0]] + b[1..];
    }
  }

  lemma StringLiteralInjective(a: string, b: string)
    requires SqlStringLiteral(a) == SqlStringLiteral(b)
    ensures a == b
  {
    hide DoubledQuotes;
    var s, t := SqlStringLiteral(a), SqlStringLiteral(b);
    assert s[1..|s| - 1] == DoubledQuotes(a) && t[1..|t| - 1] == DoubledQuotes(b);
    DoubledInjective(a, b);
  }

  // Equal literals, equal binds

  lemma TwoOfPrefix(s: string, t: string, n: nat, i: nat)
    requires n <= |s| && n <= |t| && s[..n] == t[..n] && i + 2 <= n
    ensures TwoAt(s, i) == TwoAt(t, i)
  {
    assert s[i] == s[..n][i] == t[..n][i] == t[i];
    assert s[i + 1] == s[..n][i + 1] == t[..n][i + 1] == t[i + 1];
  }

  /** The first characters of the text of an instant tell its date, and then its second. */
  lemma InstantFields(m1: int, m2: int, n: nat)
    requires HasFourDigitYear(m1) && HasFourDigitYear(m2) && (n == 10 || n == 19)
    requires InstantText(m1)[..n] == InstantText(m2)[..n]
    ensures CivilFromDays(SplitMicros(m1).0) == CivilFromDays(SplitMicros(m2).0)
    ensures n == 19 ==> SplitMicros(m1).1 / MICROS_PER_SECOND == SplitMicros(m2).1 / MICROS_PER_SECOND
  {
    hide CivilFromDays, DateTimeText, TwoAt;
    var t1, t2 := InstantText(m1), InstantText(m2);
    InstantFieldsOf(m1);
    InstantFieldsOf(m2);
    TwoOfPrefix(t1, t2, n, 0);
    TwoOfPrefix(t1, t2, n, 2);
    TwoOfPrefix(t1, t2, n, 5);
    TwoOfPrefix(t1, t2, n, 8);
    if n == 19 {
      TwoOfPrefix(t1, t2, n, 11);
      TwoOfPrefix(t1, t2, n, 14);
      TwoOfPrefix(t1, t2, n, 17);
    }
  }

  lemma InstantFieldsOf(micros: int)
    requires HasFourDigitYear(micros)
    ensures var d, second, t := CivilFromDays(SplitMicros(micros).0), SplitMicros(micros).1 / MICROS_PER_SECOND,
                                InstantText(micros);
            && d.year == TwoAt(t, 0) * 100 + TwoAt(t, 2) && d.month == TwoAt(t, 5) && d.day == TwoAt(t, 8)
            && second == (TwoAt(t, 11) * 60 + TwoAt(t, 14)) * 60 + TwoAt(t, 17)
  {
    hide CivilFromDays, DateTimeText, TwoAt;
    var (days, microsOfDay) := SplitMicros(micros);
    YearsOfMicros(micros);
    FourDigitYears(days);
    DaysOfCivil(days);
    DateTimeRoundTrip(micros);
    FieldsRead(CivilFromDays(days), microsOfDay);
    SecondAddsUp(CivilFromDays(days).year, microsOfDay / MICROS_PER_SECOND);
  }

  lemma SecondAddsUp(year: nat, second: nat)
    ensures year / 100 * 100 + year % 100 == year
    ensures (second / 3600 * 60 + second / 60 % 60) * 60 + second % 60 == second
  {
    DivModUnique(second, 3600, second / 60 / 60, second / 60 % 60 * 60 + second % 60);
  }

  /** The bytes of a DATE depend on its date and second only. */
  lemma SameDateBytes(m1: int, m2: int)
    requires HasFourDigitYear(m1) && HasFourDigitYear(m2)
    requires CivilFromDays(SplitMicros(m1).0) == CivilFromDays(SplitMicros(m2).0)
    requires SplitMicros(m1).1 / MICROS_PER_SECOND == SplitMicros(m2).1 / MICROS_PER_SECOND
    ensures EncodedDate(SplitMicros(m1).0, SplitMicros(m1).1) == EncodedDate(SplitMicros(m2).0, SplitMicros(m2).1)
  {
    hide CivilFromDays, DateBytes;
  }

  lemma SameDateBinds(m1: int, m2: int)
    requires BindOfDate(m1).Some? && BindOfDate(m2).Some?
    requires BindOfDate(m1).value.display == BindOfDate(m2).value.display
    ensures BindOfDate(m1).value.data == BindOfDate(m2).value.data
  {
    hide InstantText, EncodedDate, CivilFromDays;
    DateShown(m1);
    DateShown(m2);
    InstantFields(m1, m2, if SplitMicros(m1).1 / MICROS_PER_SECOND == 0 then 10 else 19);
    SameDateBytes(m1, m2);
  }

  lemma DoubleIsNoNumber(shown: string, v: int, scale: uint8)
    requires ShownFits(shown)
    ensures shown + "d" != BindOfNumber(v, scale).display
  {
    hide LiteralText, ShownFits;
    NumberShown(v, scale);
    NumberLiteral(Abs(v), v < 0, scale);
    var t := shown + "d";
    assert t[|t| - 1] == 'd';
  }

  /** The first character of a literal. */
  lemma LiteralHead(b: BindValue, value: string -> Double)
    requires BindFits(b, value)
    ensures b.display != ""
    ensures match b.data
            case DateData(_) => b.display[0] in {'D', 'T'}
            case TextData(_) => b.display[0] == '\''
            case VarcharData(_) => b.display[0] == '\''
            case _ => b.display[0] == '-' || '0' <= b.display[0] <= '9'
  {
    hide InstantText, LiteralText, EncodedDate, DoubledQuotes, BindOfNumber, BindOfDate, BindOfTimestamp;
    match b.data
    case NumberData(_) =>
      var v: int, scale: uint8 :| b == BindOfNumber(v, scale);
      NumberShown(v, scale);
      NumberLiteral(Abs(v), v < 0, scale);
    case DateData(_) =>
      var micros: int :| BindOfDate(micros) == Some(b);
      DateShown(micros);
    case TextData(_) =>
      var micros: int :| BindOfTimestamp(micros) == Some(b);
      TimestampShown(micros);
    case _ =>
  }

  /** Equal literals of binds used in the same way come from equal binds. */
  lemma SameLiteral(a: BindValue, b: BindValue, value: string -> Double)
    requires BindFits(a, value) && BindFits(b, value) && a.display == b.display
    requires a.data.TextData? == b.data.TextData?
    ensures a == b
  {
    hide InstantText, LiteralText, EncodedDate, DoubledQuotes, BindOfNumber, BindOfDate, BindOfTimestamp, ShownFits,
         SqlStringLiteral;
    LiteralHead(a, value);
    LiteralHead(b, value);
    if a.data.TextData? {
      var m1: int :| BindOfTimestamp(m1) == Some(a);
      var m2: int :| BindOfTimestamp(m2) == Some(b);
      TimestampShown(m1);
      TimestampShown(m2);
      StringLiteralInjective(InstantText(m1), InstantText(m2));
    } else if a.data.VarcharData? {
      StringLiteralInjective(a.data.text, b.data.text);
    } else if a.data.DateData? {
      var m1: int :| BindOfDate(m1) == Some(a);
      var m2: int :| BindOfDate(m2) == Some(b);
      SameDateBinds(m1, m2);
    } else {
      SameNumericLiteral(a, b, value);
    }
  }

  lemma SameNumericLiteral(a: BindValue, b: BindValue, value: string -> Double)
    requires BindFits(a, value) && BindFits(b, value) && a.display == b.display
    requires (a.data.NumberData? || a.data.DoubleData?) && (b.data.NumberData? || b.data.DoubleData?)
    ensures a == b
  {
    hide BindOfNumber, BindOf, ShownFits, LiteralText;
    if a.data.NumberData? && b.data.NumberData? {
      var v1: int, s1: uint8 :| a == BindOfNumber(v1, s1);
      var v2: int, s2: uint8 :| b == BindOfNumber(v2, s2);
      NumberShown(v1, s1);
      NumberShown(v2, s2);
      LiteralInjective(Abs(v1), v1 < 0, s1, Abs(v2), v2 < 0, s2);
    } else if a.data.NumberData? {
      var v1: int, s1: uint8 :| a == BindOfNumber(v1, s1);
      DoubleIsNoNumber(b.data.shown, v1, s1);
    } else if b.data.NumberData? {
      var v2: int, s2: uint8 :| b == BindOfNumber(v2, s2);
      DoubleIsNoNumber(a.data.shown, v2, s2);
    } else {
      assert (a.data.shown + "d")[..|a.data.shown|] == a.data.shown;
      assert (b.data.shown + "d")[..|b.data.shown|] == b.data.shown;
    }
  }

  // Translations

  /** The text of a finite double constant denotes its value. */
  ghost predicate ConstantShown(k: FilterConstant, value: string -> Double) {
    k.DoubleConstant? && k.f64.Real? ==> ShownFits(k.shown) && k.f64 == value(k.shown)
  }

  ghost predicate NodeShown(node: FilterNode, value: string -> Double) {
    && (forall i :: 0 <= i < |node.constants| ==> ConstantShown(node.constants[i], value))
    && (forall i :: 0 <= i < |node.children| ==> NodeShown(node.children[i], value))
  }

  lemma OperandBindFits(info: ColumnInfo, charset: string, op: FilterOp, k: FilterConstant, value: string -> Double)
    requires OperandOf(info, charset, op, k).Some? && ConstantShown(k, value)
    ensures var bound := OperandOf(info, charset, op, k).value;
            BindFits(bound.bind, value) && bound.isTimestamp == bound.bind.data.TextData?
  {
    hide InstantText, EncodedDate, BindOf, SqlStringLiteral, ExactText, ShownFits;
    match info.kind
    case NumberKind =>
      if k.IntegerConstant? {
        assert OperandOf(info, charset, op, k).value.bind == BindOfNumber(k.i64, 0);
      } else {
        assert OperandOf(info, charset, op, k).value.bind == BindOfNumber(k.i128.Value(), k.scale);
      }
    case DateKind => assert BindOfDate(ConstantMicros(k).value).Some?;
    case TimestampKind => assert BindOfTimestamp(ConstantMicros(k).value).Some?;
    case _ =>
  }

  ghost predicate SlotBound(l: Lex, binds: seq<BindValue>, first: nat, value: string -> Double) {
    l.Slot? ==>
      && first < l.operand.n <= first + |binds|
      && BindFits(binds[l.operand.n - first - 1], value)
      && binds[l.operand.n - first - 1].data.TextData? == l.operand.TimestampBind?
  }

  /** Each operand has its bind, of the kind that it converts. */
  ghost predicate SlotsBoundTo(ls: seq<Lex>, binds: seq<BindValue>, first: nat, value: string -> Double) {
    forall i :: 0 <= i < |ls| ==> SlotBound(ls[i], binds, first, value)
  }

  /** A delimiter follows each operand. */
  ghost predicate SlotsEnd(ls: seq<Lex>) {
    forall i :: 0 <= i < |ls| && ls[i].Slot? ==>
      i + 1 < |ls| && ls[i + 1].Plain? && ls[i + 1].text != "" && IsDelimiter(ls[i + 1].text[0])
  }

  lemma SlotsConcat(s: seq<Lex>, t: seq<Lex>, binds: seq<BindValue>, first: nat, value: string -> Double)
    requires SlotsBoundTo(s, binds, first, value) && SlotsBoundTo(t, binds, first, value)
    ensures SlotsBoundTo(s + t, binds, first, value)
  {
    hide SlotBound;
  }

  lemma EndsConcat(s: seq<Lex>, t: seq<Lex>)
    requires SlotsEnd(s) && SlotsEnd(t)
    ensures SlotsEnd(s + t)
  {}

  lemma SlotsExtend(ls: seq<Lex>, left: seq<BindValue>, right: seq<BindValue>, first: nat, value: string -> Double)
    ensures SlotsBoundTo(ls, left, first, value) ==> SlotsBoundTo(ls, left + right, first, value)
    ensures SlotsBoundTo(ls, right, first + |left|, value) ==> SlotsBoundTo(ls, left + right, first, value)
  {
    hide BindFits;
  }

  lemma PlainSlots(text: string, binds: seq<BindValue>, first: nat, value: string -> Double)
    ensures SlotsBoundTo([Plain(text)], binds, first, value) && SlotsEnd([Plain(text)])
  {}

  lemma {:induction false} ListSlots(info: ColumnInfo, charset: string, constants: seq<FilterConstant>, i: nat,
                                     first: nat, value: string -> Double)
    requires i <= |constants| && TranslateList(info, charset, constants, i, first).Some?
    requires forall j :: 0 <= j < |constants| ==> ConstantShown(constants[j], value)
    ensures var list := TranslateList(info, charset, constants, i, first).value;
            forall j :: 0 <= j < i ==> SlotBound(Slot(list.sql[j]), list.binds, first, value)
  {
    hide OperandOf, BindFits, ConstantShown;
    if i > 0 {
      ListSlots(info, charset, constants, i - 1, first, value);
      OperandBindFits(info, charset, InOp, constants[i - 1], value);
    }
  }

  lemma {:induction false} JoinedSlotsFit(operands: seq<Operand>, binds: seq<BindValue>, first: nat,
                                          value: string -> Double)
    requires forall j :: 0 <= j < |operands| ==> SlotBound(Slot(operands[j]), binds, first, value)
    ensures SlotsBoundTo(JoinSlots(operands), binds, first, value)
    ensures SlotsEnd(JoinSlots(operands) + [Plain("))")])
  {
    hide BindFits;
    if |operands| > 1 {
      var n := |operands| - 1;
      JoinedSlotsFit(operands[..n], binds, first, value);
      SlotEnds(JoinSlots(operands[..n]), operands[n]);
    }
  }

  lemma SlotEnds(left: seq<Lex>, o: Operand)
    requires SlotsEnd(left + [Plain("))")])
    ensures SlotsEnd(left + [Plain(", "), Slot(o)] + [Plain("))")])
  {
    var before, all := left + [Plain("))")], left + [Plain(", "), Slot(o)] + [Plain("))")];
    forall i | 0 <= i < |all| && all[i].Slot?
      ensures i + 1 < |all| && all[i + 1].Plain? && all[i + 1].text != "" && IsDelimiter(all[i + 1].text[0])
    {
      if i < |left| { assert before[i] == all[i] && (i + 1 < |left| ==> before[i + 1] == all[i + 1]); }
    }
  }

  lemma LeafSlots(node: FilterNode, columns: seq<OracleColumn>, charset: string, first: nat, value: string -> Double)
    requires TranslateLeaf(node, columns, charset, first).Some? && NodeShown(node, value)
    ensures var built := TranslateLeaf(node, columns, charset, first).value;
            SlotsBoundTo(Lexes(built.sql), built.binds, first, value) && SlotsEnd(Lexes(built.sql))
  {
    hide OperandOf, BindFits, Classify, TranslateList, BindOfDate, DaysFromCivil, JoinSlots, Symbol, ConstantShown,
         SlotsEnd;
    var built := TranslateLeaf(node, columns, charset, first).value;
    match node.op
    case CompareOp(_) =>
      OperandBindFits(Classify(columns[node.column]), charset, node.op, node.constants[0], value);
      CompareEnds(built.sql);
    case InOp =>
      var info := Classify(columns[node.column]);
      ListSlots(info, charset, node.constants, |node.constants|, first, value);
      JoinedSlotsFit(built.sql.operands, built.binds, first, value);
      InListSlots(built.sql.column, built.sql.operands, built.binds, first, value);
    case DateEqOp =>
      DateBindFits(ConstantMicros(node.constants[0]).value, value);
      DayRangeEnds(built.sql);
    case _ => NullTestEnds(built.sql);
  }

  lemma CompareEnds(c: Cond)
    requires c.Compare?
    ensures SlotsEnd(Lexes(c))
  {}

  lemma DayRangeEnds(c: Cond)
    requires c.DayRange?
    ensures SlotsEnd(Lexes(c))
  {}

  lemma NullTestEnds(c: Cond)
    requires c.NullTest?
    ensures SlotsEnd(Lexes(c))
  {}

  lemma DateBindFits(micros: int, value: string -> Double)
    requires BindOfDate(micros).Some?
    ensures BindFits(BindOfDate(micros).value, value) && BindOfDate(micros).value.data.DateData?
  {
    hide InstantText, EncodedDate;
  }

  lemma InListSlots(column: string, operands: seq<Operand>, binds: seq<BindValue>, first: nat, value: string -> Double)
    requires SlotsBoundTo(JoinSlots(operands), binds, first, value) && SlotsEnd(JoinSlots(operands) + [Plain("))")])
    ensures SlotsBoundTo(Lexes(InList(column, operands)), binds, first, value)
    ensures SlotsEnd(Lexes(InList(column, operands)))
  {
    hide BindFits, JoinSlots;
    var open := [Plain("("), Name(column), Plain(" IN (")];
    EndsConcat(open, JoinSlots(operands) + [Plain("))")]);
    assert Lexes(InList(column, operands)) == open + (JoinSlots(operands) + [Plain("))")]);
  }

  lemma JoinStepFits(parts: seq<seq<Lex>>, last: seq<Lex>, glue: string, binds: seq<BindValue>, first: nat,
                     value: string -> Double)
    requires SlotsBoundTo(JoinLexes(parts, glue), binds, first, value) && SlotsEnd(JoinLexes(parts, glue))
    requires SlotsBoundTo(last, binds, first, value) && SlotsEnd(last)
    ensures SlotsBoundTo(JoinLexes(parts + [last], glue), binds, first, value)
    ensures SlotsEnd(JoinLexes(parts + [last], glue))
  {
    hide SlotsBoundTo, SlotsEnd;
    var all := parts + [last];
    if parts == [] {
      assert all[0] == last;
    } else {
      assert all[..|all| - 1] == parts && all[|all| - 1] == last;
      PlainSlots(glue, binds, first, value);
      SlotsConcat(JoinLexes(parts, glue), [Plain(glue)], binds, first, value);
      EndsConcat(JoinLexes(parts, glue), [Plain(glue)]);
      SlotsConcat(JoinLexes(parts, glue) + [Plain(glue)], last, binds, first, value);
      EndsConcat(JoinLexes(parts, glue) + [Plain(glue)], last);
    }
  }

  lemma {:induction false} TranslationSlots(node: FilterNode, columns: seq<OracleColumn>, charset: string, first: nat,
                                            value: string -> Double)
    requires TranslateNode(node, columns, charset, first).Some? && NodeShown(node, value)
    ensures var built := TranslateNode(node, columns, charset, first).value;
            SlotsBoundTo(Lexes(built.sql), built.binds, first, value) && SlotsEnd(Lexes(built.sql))
    decreases node, 0
  {
    hide TranslateNode, TranslateLeaf, TranslateChildren, SlotsBoundTo, SlotsEnd, Lexes, JoinLexes, Glue, NodeShown;
    NodeUnfold(node, columns, charset, first);
    if node.op.AndOp? || node.op.OrOp? {
      var all := TranslateChildren(node, columns, charset, |node.children|, first).value;
      ChildrenSlots(node, columns, charset, |node.children|, first, value);
      NodeLexes(node.op.AndOp?, all.sql);
      var joined := JoinLexes(LexesOf(all.sql), Glue(node.op.AndOp?));
      PlainSlots("(", all.binds, first, value);
      PlainSlots(")", all.binds, first, value);
      SlotsConcat([Plain("(")], joined, all.binds, first, value);
      EndsConcat([Plain("(")], joined);
      SlotsConcat([Plain("(")] + joined, [Plain(")")], all.binds, first, value);
      EndsConcat([Plain("(")] + joined, [Plain(")")]);
    } else {
      LeafSlots(node, columns, charset, first, value);
    }
  }

  lemma {:induction false} ChildrenSlots(node: FilterNode, columns: seq<OracleColumn>, charset: string, i: nat,
                                         first: nat, value: string -> Double)
    requires i <= |node.children| && TranslateChildren(node, columns, charset, i, first).Some? && NodeShown(node, value)
    ensures var built := TranslateChildren(node, columns, charset, i, first).value;
            var joined := JoinLexes(LexesOf(built.sql), Glue(node.op.AndOp?));
            SlotsBoundTo(joined, built.binds, first, value) && SlotsEnd(joined)
    decreases node, 0, i
  {
    hide TranslateNode, SlotsBoundTo, SlotsEnd, Lexes, JoinLexes, Glue;
    var glue := Glue(node.op.AndOp?);
    if i == 0 {
      NoSlotsJoined(glue, first, value);
      assert LexesOf([]) == [];
    } else {
      ChildrenSlots(node, columns, charset, i - 1, first, value);
      var left := TranslateChildren(node, columns, charset, i - 1, first).value;
      var last := TranslateNode(node.children[i - 1], columns, charset, first + |left.binds|).value;
      TranslationSlots(node.children[i - 1], columns, charset, first + |left.binds|, value);
      SlotsExtend(JoinLexes(LexesOf(left.sql), glue), left.binds, last.binds, first, value);
      SlotsExtend(Lexes(last.sql), left.binds, last.binds, first, value);
      JoinStepFits(LexesOf(left.sql), Lexes(last.sql), glue, left.binds + last.binds, first, value);
      assert LexesOf(left.sql + [last.sql]) == LexesOf(left.sql) + [Lexes(last.sql)];
    }
  }

  lemma NoSlotsJoined(glue: string, first: nat, value: string -> Double)
    ensures SlotsBoundTo(JoinLexes([], glue), [], first, value) && SlotsEnd(JoinLexes([], glue))
  {}

  // Reading the shown text

  lemma CancelPrefix(p: string, s: string, t: string)
    requires p + s == p + t
    ensures s == t
  {
    assert (p + s)[|p|..] == s && (p + t)[|p|..] == t;
  }

  /** Equal shown texts of the same parts show the same bind for every operand. */
  lemma {:induction false} SameShown(ls: seq<Lex>, a: seq<BindValue>, b: seq<BindValue>, value: string -> Double,
                                     i: nat)
    requires SlotsBoundTo(ls, a, 0, value) && SlotsBoundTo(ls, b, 0, value) && SlotsEnd(ls)
    requires Concat(ShowLexes(ls, a)) == Concat(ShowLexes(ls, b))
    requires i < |ls| && ls[i].Slot?
    ensures a[ls[i].operand.n - 1] == b[ls[i].operand.n - 1]
    decreases |ls|
  {
    hide BindFits, ShowLexes, Concat, LexText, Shown;
    ShownHead(ls, a);
    ShownHead(ls, b);
    var restA, restB := Concat(ShowLexes(ls[1..], a)), Concat(ShowLexes(ls[1..], b));
    if ls[0].Slot? {
      var o := ls[0].operand;
      var x, y := a[o.n - 1], b[o.n - 1];
      assert SlotBound(ls[0], a, 0, value) && SlotBound(ls[0], b, 0, value);
      ShownIs(o, a);
      ShownIs(o, b);
      RestDelimits(ls, a);
      RestDelimits(ls, b);
      var prefix := if o.TimestampBind? then "TIMESTAMP " else "";
      assert ls[0] == Slot(o);
      assert (prefix + x.display) + restA == prefix + (x.display + restA);
      assert (prefix + y.display) + restB == prefix + (y.display + restB);
      CancelPrefix(prefix, x.display + restA, y.display + restB);
      LiteralEndOf(x, value, restA);
      LiteralEndOf(y, value, restB);
      assert (x.display + restA)[..|x.display|] == x.display && (y.display + restB)[..|y.display|] == y.display;
      SameLiteral(x, y, value);
      CancelPrefix(x.display, restA, restB);
    } else {
      SameHead(ls[0], a, b);
      CancelPrefix(LexText(ShowLex(ls[0], a)), restA, restB);
    }
    if i > 0 {
      assert forall j :: 0 <= j < |ls| - 1 ==> ls[1..][j] == ls[j + 1];
      SameShown(ls[1..], a, b, value, i - 1);
    }
  }

  lemma SameHead(l: Lex, a: seq<BindValue>, b: seq<BindValue>)
    requires !l.Slot?
    ensures ShowLex(l, a) == ShowLex(l, b)
  {}

  lemma ShownHead(ls: seq<Lex>, binds: seq<BindValue>)
    requires ls != []
    ensures Concat(ShowLexes(ls, binds)) == LexText(ShowLex(ls[0], binds)) + Concat(ShowLexes(ls[1..], binds))
  {
    hide LexText, ShowLex;
    assert ShowLexes(ls, binds)[1..] == ShowLexes(ls[1..], binds);
  }

  lemma ShownIs(o: Operand, binds: seq<BindValue>)
    requires 1 <= o.n <= |binds|
    ensures LexText(ShowLex(Slot(o), binds)) == (if o.TimestampBind? then "TIMESTAMP " else "") + binds[o.n - 1].display
  {}

  /** After an operand the shown text goes on with a delimiter. */
  lemma RestDelimits(ls: seq<Lex>, binds: seq<BindValue>)
    requires ls != [] && ls[0].Slot? && SlotsEnd(ls)
    ensures var rest := Concat(ShowLexes(ls[1..], binds));
            rest != "" && IsDelimiter(rest[0])
  {
    hide Concat, Shown;
    assert ls[1].Plain? && ls[1..][0] == ls[1];
    ShownHead(ls[1..], binds);
  }

  lemma {:induction false} NumberInSlots(ls: seq<Lex>, n: nat) returns (i: nat)
    requires n in SlotNumbers(ls)
    ensures i < |ls| && ls[i].Slot? && ls[i].operand.n == n
  {
    if ls[0].Slot? && ls[0].operand.n == n {
      i := 0;
    } else {
      i := NumberInSlots(ls[1..], n);
      i := i + 1;
    }
  }

  /** Two filters with the same SQL text and the same text shown have the same binds, and so mean the same: a
      filter that is already known need not be pushed again. */
  lemma SameFragmentSameBinds(n1: FilterNode, n2: FilterNode, columns: seq<OracleColumn>, charset: string,
                              value: string -> Double)
    requires FragmentOf(n1, columns, charset).Some? && FragmentOf(n2, columns, charset).Some? && NamesFit(columns)
    requires NodeShown(n1, value) && NodeShown(n2, value)
    requires FragmentOf(n1, columns, charset).value.sql == FragmentOf(n2, columns, charset).value.sql
    requires FragmentOf(n1, columns, charset).value.display == FragmentOf(n2, columns, charset).value.display
    ensures FragmentOf(n1, columns, charset) == FragmentOf(n2, columns, charset)
    ensures TranslateNode(n1, columns, charset, 0) == TranslateNode(n2, columns, charset, 0)
  {
    hide TranslateNode, Text, Lexes, Concat, ShowLexes, SlotNumbers, NamesFit, NodeShown, SlotsBoundTo, SlotsEnd;
    var b1, b2 := TranslateNode(n1, columns, charset, 0).value, TranslateNode(n2, columns, charset, 0).value;
    TranslationWellFormed(n1, columns, charset, 0);
    TranslationWellFormed(n2, columns, charset, 0);
    TextInjective(b1.sql, b2.sql);
    TranslationNumbers(n1, columns, charset, 0);
    TranslationNumbers(n2, columns, charset, 0);
    assert |b1.binds| == |Range(0, |b1.binds|)| == |Range(0, |b2.binds|)| == |b2.binds|;
    TranslationSlots(n1, columns, charset, 0, value);
    TranslationSlots(n2, columns, charset, 0, value);
    var ls := Lexes(b1.sql);
    forall k | 0 <= k < |b1.binds|
      ensures b1.binds[k] == b2.binds[k]
    {
      assert Range(0, |b1.binds|)[k] == k + 1;
      var i := NumberInSlots(ls, k + 1);
      SameShown(ls, b1.binds, b2.binds, value, i);
    }
    assert b1.binds == b2.binds;
  }
}
