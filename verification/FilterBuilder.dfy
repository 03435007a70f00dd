/** Building a filter's fragment: its SQL text, the text shown for it, and its binds, piece by piece. */
module FilterBuilder {
  import opened Machine
  import opened Digits
  import opened NumberReading
  import opened NumberBinds
  import opened Calendar
  import opened OracleDate
  import opened DateTimes
  import opened Numerals
  import opened SqlConditions
  import opened SqlParser
  import opened OracleColumns
  import opened FilterValues
  import opened FilterSql
  import opened FilterNumbering

  // The text shown: literals in place of the operands

  /** A bind outside the list, which no translation makes, would be shown as nothing. */
  function Shown(o: Operand, binds: seq<BindValue>): string {
    if o.n < 1 || o.n > |binds| then ""
    else (if o.TimestampBind? then "TIMESTAMP " else "") + binds[o.n - 1].display
  }

  function ShowLex(l: Lex, binds: seq<BindValue>): Lex {
    if l.Slot? then Plain(Shown(l.operand, binds)) else l
  }

  function ShowLexes(ls: seq<Lex>, binds: seq<BindValue>): (r: seq<Lex>)
    ensures |r| == |ls| && forall i :: 0 <= i < |ls| ==> r[i] == ShowLex(ls[i], binds)
  {
    seq(|ls|, i requires 0 <= i < |ls| => ShowLex(ls[i], binds))
  }

  function Display(c: Cond, binds: seq<BindValue>): string {
    Concat(ShowLexes(Lexes(c), binds))
  }

  lemma ShowConcat(s: seq<Lex>, t: seq<Lex>, binds: seq<BindValue>)
    ensures ShowLexes(s + t, binds) == ShowLexes(s, binds) + ShowLexes(t, binds)
  {}

  lemma Concat3(a: Lex, b: Lex, c: Lex)
    ensures Concat([a, b, c]) == LexText(a) + LexText(b) + LexText(c)
  {
    hide LexText, Concat;
    OneLex(c);
    ConcatHead(b, [c]);
    ConcatHead(a, [b] + [c]);
    assert [a, b, c] == [a] + ([b] + [c]);
  }

  lemma Concat5(a: Lex, b: Lex, c: Lex, d: Lex, e: Lex)
    ensures Concat([a, b, c, d, e]) == LexText(a) + LexText(b) + LexText(c) + LexText(d) + LexText(e)
  {
    hide LexText, Concat;
    Concat3(c, d, e);
    ConcatHead(b, [c, d, e]);
    ConcatHead(a, [b] + [c, d, e]);
    assert [a, b, c, d, e] == [a] + ([b] + [c, d, e]);
    assert LexText(a) + (LexText(b) + (LexText(c) + LexText(d) + LexText(e)))
        == LexText(a) + LexText(b) + LexText(c) + LexText(d) + LexText(e);
  }

  lemma Concat9(a: Lex, b: Lex, c: Lex, d: Lex, e: Lex, f: Lex, g: Lex, h: Lex, i: Lex)
    ensures Concat([a, b, c, d, e, f, g, h, i])
         == LexText(a) + LexText(b) + LexText(c) + LexText(d) + LexText(e) + LexText(f) + LexText(g) + LexText(h)
          + LexText(i)
  {
    hide LexText, Concat;
    Concat5(a, b, c, d, e);
    ConcatAppend([a, b, c, d, e], [f, g, h, i]);
    Concat3(g, h, i);
    ConcatHead(f, [g, h, i]);
    assert [f, g, h, i] == [f] + [g, h, i];
    assert [a, b, c, d, e, f, g, h, i] == [a, b, c, d, e] + [f, g, h, i];
    Flatten(LexText(a) + LexText(b) + LexText(c) + LexText(d) + LexText(e), LexText(f), LexText(g), LexText(h),
            LexText(i));
  }

  lemma Flatten(a: string, f: string, g: string, h: string, i: string)
    ensures a + (f + (g + h + i)) == a + f + g + h + i
  {}

  lemma NullTestTexts(column: string, isNull: bool, binds: seq<BindValue>)
    ensures Text(NullTest(column, isNull)) == "(" + Quoted(column) + (if isNull then " IS NULL)" else " IS NOT NULL)")
    ensures Display(NullTest(column, isNull), binds) == Text(NullTest(column, isNull))
  {
    hide Concat, Quoted;
    NullTestText(column, isNull);
    assert ShowLexes(Lexes(NullTest(column, isNull)), binds) == Lexes(NullTest(column, isNull));
  }

  lemma CompareTexts(column: string, op: Op, o: Operand, binds: seq<BindValue>)
    ensures Text(Compare(column, op, o)) == "(" + Quoted(column) + Symbol(op) + OperandText(o) + ")"
    ensures Display(Compare(column, op, o), binds) == "(" + Quoted(column) + Symbol(op) + Shown(o, binds) + ")"
  {
    hide Concat, Quoted, OperandText, Shown, Symbol;
    CompareText(column, op, o);
    Concat5(Plain("("), Name(column), Plain(Symbol(op)), Plain(Shown(o, binds)), Plain(")"));
    assert ShowLexes(Lexes(Compare(column, op, o)), binds)
        == [Plain("("), Name(column), Plain(Symbol(op)), Plain(Shown(o, binds)), Plain(")")];
  }

  lemma DayRangeTexts(column: string, lo: nat, hi: nat, binds: seq<BindValue>)
    ensures Text(DayRange(column, lo, hi))
         == "(" + Quoted(column) + " >= " + OperandText(Bind(lo)) + " AND " + Quoted(column) + " < "
          + OperandText(Bind(hi)) + " + 1)"
    ensures Display(DayRange(column, lo, hi), binds)
         == "(" + Quoted(column) + " >= " + Shown(Bind(lo), binds) + " AND " + Quoted(column) + " < "
          + Shown(Bind(hi), binds) + " + 1)"
  {
    hide Concat, Quoted, OperandText, Shown;
    DayRangeText(column, lo, hi);
    Concat9(Plain("("), Name(column), Plain(" >= "), Plain(Shown(Bind(lo), binds)), Plain(" AND "), Name(column),
            Plain(" < "), Plain(Shown(Bind(hi), binds)), Plain(" + 1)"));
    assert ShowLexes(Lexes(DayRange(column, lo, hi)), binds)
        == [Plain("("), Name(column), Plain(" >= "), Plain(Shown(Bind(lo), binds)), Plain(" AND "), Name(column),
            Plain(" < "), Plain(Shown(Bind(hi), binds)), Plain(" + 1)")];
  }

  // Single binds

  method StringLiteral(value: string) returns (out: string)
    ensures out == SqlStringLiteral(value)
  {
    out := "'";
    var i := 0;
    assert value[0..] == value;
    while i < |value|
      invariant 0 <= i <= |value| && out + DoubledQuotes(value[i..]) == "'" + DoubledQuotes(value)
    {
      var c := value[i];
      assert value[i..][0] == c && value[i..][1..] == value[i + 1..];
      if c == '\'' {
        out := out + ['\''];
      }
      out := out + [c];
      i := i + 1;
    }
    assert value[i..] == "" && out + "" == out;
    out := out + "'";
  }

  /** The text of an instant, none when its year does not have four digits. */
  method MakeInstantText(micros: int) returns (text: Option<string>)
    ensures text == if HasFourDigitYear(micros) then Some(InstantText(micros)) else None
  {
    hide DateTimeText, CivilFromDays;
    var (days, microsOfDay) := SplitMicros(micros);
    YearsOfMicros(micros);
    var out := new char[TEXT_CHARS];
    var ok := FormatDateTimeText(days, microsOfDay, out);
    text := if ok then Some(out[..TEXT_CHARS]) else None;
  }

  lemma YearsOfMicros(micros: int)
    ensures HasFourDigitYear(micros) <==> -719162 <= micros / MICROS_PER_DAY <= 2932896
  {}

  method BindDate(micros: int) returns (bind: Option<BindValue>)
    ensures bind == BindOfDate(micros)
  {
    hide EncodedDate, InstantText;
    var (days, microsOfDay) := SplitMicros(micros);
    var buf := new uint8[DATE_BYTES];
    var ok := EncodeOracleDate(days, microsOfDay, buf);
    EncodedDates(days, microsOfDay);
    YearsOfMicros(micros);
    if !ok {
      return None;
    }
    var text := MakeInstantText(micros);
    var display := if microsOfDay / MICROS_PER_SECOND == 0 then "DATE '" + text.value[..10] + "'"
                   else "TO_DATE('" + text.value[..19] + "', 'YYYY-MM-DD HH24:MI:SS')";
    assert buf[..] == buf[..DATE_BYTES];
    return Some(BindValue(DateData(buf[..]), display));
  }

  /** Collects the binds of a filter while its texts are built. */
  class Builder {
    const columns: seq<OracleColumn>
    const charset: string
    var binds: seq<BindValue>

    constructor (columns: seq<OracleColumn>, charset: string)
      ensures this.columns == columns && this.charset == charset && binds == []
    {
      this.columns, this.charset, binds := columns, charset, [];
    }

    /** Appends a bind: its placeholder in the SQL text, between the given texts, and its literal in the other. */
    method AddBind(bind: BindValue, prefix: string, suffix: string, shown: string)
        returns (sql: string, display: string)
      modifies this
      ensures binds == old(binds) + [bind]
      ensures sql == prefix + ":b" + Decimal(|binds|) + suffix && display == shown
    {
      sql := prefix + ":b" + Decimal(|binds| + 1) + suffix;
      display := shown;
      binds := binds + [bind];
    }

    /** What is bound for a constant compared with a column; none when it cannot be pushed. */
    method MakeBind(info: ColumnInfo, op: FilterOp, k: FilterConstant) returns (bound: Option<Bound>)
      ensures bound == OperandOf(info, charset, op, k)
    {
      hide BindOf, InstantText, BindOfDate, ExactText, Decimal, DoubledQuotes;
      if info.kind == NumberKind {
        if k.IntegerConstant? {
          var number := BindNumber(k.i64);
          return Some(Bound(false, BindValue(NumberData(number.bytes), number.display)));
        }
        if k.DecimalConstant? {
          var number := BindDecimal(k.i128, k.scale);
          return Some(Bound(false, BindValue(NumberData(number.bytes), number.display)));
        }
        return None;
      } else if info.kind == BinaryFloatKind || info.kind == BinaryDoubleKind {
        if !k.DoubleConstant? || !k.f64.Real? {
          return None;
        }
        return Some(Bound(false, BindValue(DoubleData(k.f64, k.shown), k.shown + "d")));
      } else if info.kind == DateKind {
        var micros := ConstantMicros(k);
        if micros.None? || micros.value % MICROS_PER_SECOND != 0 {
          return None;
        }
        var bind := BindDate(micros.value);
        return if bind.None? then None else Some(Bound(false, bind.value));
      } else if info.kind == TimestampKind {
        var micros := ConstantMicros(k);
        if micros.None? {
          return None;
        }
        var text := MakeInstantText(micros.value);
        if text.None? {
          return None;
        }
        var literal := StringLiteral(text.value);
        return Some(Bound(true, BindValue(TextData(text.value), literal)));
      } else if info.kind == CharKind {
        if !k.StringConstant? || !ExactText(info, charset, k.text) {
          return None;
        }
        if IsRange(op) && (!IsAl32Utf8(charset) || info.national) {
          return None;
        }
        var literal := StringLiteral(k.text);
        return Some(Bound(false, BindValue(VarcharData(k.text), literal)));
      }
      return None;
    }

    /** The operand for a constant compared with a column; nothing is bound when it cannot be pushed. */
    method Operand(info: ColumnInfo, op: FilterOp, k: FilterConstant) returns (ok: bool, sql: string, display: string)
      modifies this
      ensures var bound := OperandOf(info, charset, op, k);
              && ok == bound.Some?
              && (!ok ==> binds == old(binds))
              && (ok ==> && binds == old(binds) + [bound.value.bind]
                         && sql == OperandText(SlotFor(bound.value, |binds|))
                         && display == Shown(SlotFor(bound.value, |binds|), binds))
    {
      hide OperandOf, Decimal;
      sql, display := "", "";
      var bound := MakeBind(info, op, k);
      if bound.None? {
        return false, sql, display;
      }
      var bind := bound.value.bind;
      if bound.value.isTimestamp {
        TimestampSql(|binds| + 1);
        sql, display := AddBind(bind, "TO_TIMESTAMP(", ", 'YYYY-MM-DD HH24:MI:SS.FF6')", "TIMESTAMP " + bind.display);
      } else {
        sql, display := AddBind(bind, "", "", bind.display);
      }
      return true, sql, display;
    }

    method InOperands(info: ColumnInfo, constants: seq<FilterConstant>) returns (ok: bool, sql: string, display: string)
      modifies this
      ensures var list := TranslateList(info, charset, constants, |constants|, |old(binds)|);
              && ok == list.Some? && old(binds) <= binds
              && (ok ==> && binds == old(binds) + list.value.binds
                         && sql == Concat(JoinSlots(list.value.sql))
                         && display == Concat(ShowLexes(JoinSlots(list.value.sql), binds)))
    {
      hide OperandOf, OperandText, Concat, JoinSlots, Shown, SlotFor, ShowLexes;
      sql, display := "", "";
      EmptyList(binds);
      assert binds == old(binds) + [];
      var i := 0;
      while i < |constants|
        invariant 0 <= i <= |constants| && old(binds) <= binds
        invariant var list := TranslateList(info, charset, constants, i, |old(binds)|);
                  && list.Some? && binds == old(binds) + list.value.binds
                  && sql == Concat(JoinSlots(list.value.sql))
                  && display == Concat(ShowLexes(JoinSlots(list.value.sql), binds))
      {
        ghost var before, left := binds, TranslateList(info, charset, constants, i, |old(binds)|).value;
        var bound, s, d := Operand(info, InOp, constants[i]);
        if !bound {
          ListFails(info, charset, constants, i, |old(binds)|);
          return false, sql, display;
        }
        ghost var o := SlotFor(OperandOf(info, charset, InOp, constants[i]).value, |binds|);
        ListStep(info, charset, constants, i, |old(binds)|, before, binds, o);
        var glue := if i > 0 then ", " else "";
        sql := sql + glue + s;
        display := display + glue + d;
        i := i + 1;
      }
      return true, sql, display;
    }

    /** IS NULL or IS NOT NULL */
    method NullTestLeaf(node: FilterNode) returns (ok: bool, sql: string)
      requires (node.op.IsNullOp? || node.op.IsNotNullOp?) && node.column < |columns|
      ensures var built := TranslateLeaf(node, columns, charset, |binds|);
              ok == built.Some? && (ok ==> built.value.binds == [] && sql == Text(built.value.sql)
                                           && sql == Display(built.value.sql, binds))
    {
      hide Text, Display, Classify, Quoted;
      sql := "";
      var column := columns[node.column];
      if Classify(column).kind == OtherKind && column.dataType != "NUMBER" {
        return false, sql;
      }
      sql := "(" + Quoted(column.name) + if node.op == IsNullOp then " IS NULL)" else " IS NOT NULL)";
      NullTestTexts(column.name, node.op == IsNullOp, binds);
      return true, sql;
    }

    /** CAST(column AS DATE) = d as the range of the day */
    method DateEqLeaf(node: FilterNode) returns (ok: bool, sql: string, display: string)
      requires node.op.DateEqOp? && node.column < |columns|
      modifies this
      ensures var built := TranslateLeaf(node, columns, charset, |old(binds)|);
              && ok == built.Some? && old(binds) <= binds
              && (ok ==> binds == old(binds) + built.value.binds && sql == Text(built.value.sql)
                         && display == Display(built.value.sql, binds))
    {
      hide OperandText, Text, Display, Classify, BindOfDate, DaysFromCivil, Shown, Quoted, Decimal;
      sql, display := "", "";
      var column := columns[node.column];
      if Classify(column).kind != DateKind || |node.constants| != 1 || !node.constants[0].DateConstant? {
        return false, sql, display;
      }
      var micros := ConstantMicros(node.constants[0]);
      // The day after the last one of year 9999 would be an error.
      if micros.None? || node.constants[0].days >= DaysFromCivil(Date(9999, 12, 31)) {
        return false, sql, display;
      }
      var bind := BindDate(micros.value);
      if bind.None? {
        return false, sql, display;
      }
      var quoted := Quoted(column.name);
      ghost var n := |binds|;
      var s1, d1 := AddBind(bind.value, "", "", bind.value.display);
      var s2, d2 := AddBind(bind.value, "", "", bind.value.display);
      sql := "(" + quoted + " >= " + s1 + " AND " + quoted + " < " + s2 + " + 1)";
      display := "(" + quoted + " >= " + d1 + " AND " + quoted + " < " + d2 + " + 1)";
      DayRangeTexts(column.name, n + 1, n + 2, binds);
      PlainOperand(n + 1, binds);
      PlainOperand(n + 2, binds);
      assert old(binds) + [bind.value, bind.value] == binds;
      return true, sql, display;
    }

    /** IN with a list of constants */
    method InLeaf(node: FilterNode) returns (ok: bool, sql: string, display: string)
      requires node.op.InOp? && node.column < |columns|
      modifies this
      ensures var built := TranslateLeaf(node, columns, charset, |old(binds)|);
              && ok == built.Some? && old(binds) <= binds
              && (ok ==> binds == old(binds) + built.value.binds && sql == Text(built.value.sql)
                         && display == Display(built.value.sql, binds))
    {
      hide Text, Display, Classify, TranslateList, Quoted, Concat, JoinSlots, ShowLexes;
      sql, display := "", "";
      var column := columns[node.column];
      var info := Classify(column);
      if info.kind == LobKind || info.kind == OtherKind || node.constants == [] || |node.constants| > MAX_IN_LIST {
        return false, sql, display;
      }
      var listed, s, d := InOperands(info, node.constants);
      if !listed {
        return false, sql, display;
      }
      sql := "(" + Quoted(column.name) + " IN (" + s + "))";
      display := "(" + Quoted(column.name) + " IN (" + d + "))";
      InListTexts(column.name, TranslateList(info, charset, node.constants, |node.constants|, |old(binds)|).value.sql,
                  binds);
      return true, sql, display;
    }

    /** A comparison with one constant */
    method CompareLeaf(node: FilterNode) returns (ok: bool, sql: string, display: string)
      requires node.op.CompareOp? && node.column < |columns|
      modifies this
      ensures var built := TranslateLeaf(node, columns, charset, |old(binds)|);
              && ok == built.Some? && old(binds) <= binds
              && (ok ==> binds == old(binds) + built.value.binds && sql == Text(built.value.sql)
                         && display == Display(built.value.sql, binds))
    {
      hide OperandOf, OperandText, Text, Display, Classify, Shown, Quoted, Symbol, SlotFor;
      sql, display := "", "";
      if |node.constants| != 1 {
        return false, sql, display;
      }
      var column := columns[node.column];
      var info := Classify(column);
      var compared, s, d := Operand(info, node.op, node.constants[0]);
      if !compared {
        return false, sql, display;
      }
      sql := "(" + Quoted(column.name) + Symbol(node.op.op) + s + ")";
      display := "(" + Quoted(column.name) + Symbol(node.op.op) + d + ")";
      CompareTexts(column.name, node.op.op,
                   SlotFor(OperandOf(info, charset, node.op, node.constants[0]).value, |binds|),
                   binds);
      return true, sql, display;
    }

    /** A condition on one column. */
    method Leaf(node: FilterNode) returns (ok: bool, sql: string, display: string)
      requires !node.op.AndOp? && !node.op.OrOp?
      modifies this
      ensures var built := TranslateLeaf(node, columns, charset, |old(binds)|);
              && ok == built.Some? && old(binds) <= binds
              && (ok ==> binds == old(binds) + built.value.binds && sql == Text(built.value.sql)
                         && display == Display(built.value.sql, binds))
    {
      hide TranslateLeaf, Text, Display;
      if node.column >= |columns| {
        NoColumn(node, columns, charset, |binds|);
        return false, "", "";
      }
      match node.op
      case IsNullOp =>
        ok, sql := NullTestLeaf(node);
        assert old(binds) + [] == binds;
        display := sql;
      case IsNotNullOp =>
        ok, sql := NullTestLeaf(node);
        assert old(binds) + [] == binds;
        display := sql;
      case DateEqOp => ok, sql, display := DateEqLeaf(node);
      case InOp => ok, sql, display := InLeaf(node);
      case CompareOp(_) => ok, sql, display := CompareLeaf(node);
    }

    /** A filter: a conjunction or disjunction of its children, or a condition on one column. */
    method Node(node: FilterNode) returns (ok: bool, sql: string, display: string)
      modifies this
      ensures var built := TranslateNode(node, columns, charset, |old(binds)|);
              && ok == built.Some? && old(binds) <= binds
              && (ok ==> binds == old(binds) + built.value.binds && sql == Text(built.value.sql)
                         && display == Display(built.value.sql, binds))
      decreases node
    {
      hide Display, Text, TranslateLeaf, TranslateNode, TranslateChildren, Progress;
      sql, display := "", "";
      NodeUnfold(node, columns, charset, |binds|);
      if !node.op.AndOp? && !node.op.OrOp? {
        ok, sql, display := Leaf(node);
        return;
      }
      if node.children == [] {
        return false, sql, display;
      }
      var glue := if node.op.AndOp? then " AND " else " OR ";
      sql, display := "(", "(";
      ProgressStart(node, columns, charset, binds);
      var i := 0;
      while i < |node.children|
        invariant 0 <= i <= |node.children| && old(binds) <= binds
        invariant Progress(node, columns, charset, old(binds), i, binds, sql, display)
      {
        ghost var before := binds;
        ProgressBinds(node, columns, charset, old(binds), i, binds, sql, display);
        var translated, childSql, childDisplay := Node(node.children[i]);
        if !translated {
          ChildrenFail(node, columns, charset, i, |node.children|, |old(binds)|);
          return false, sql, display;
        }
        ProgressStep(node, columns, charset, old(binds), i, before, sql, display, binds, childSql, childDisplay);
        assert sql + "" == sql && display + "" == display;
        if i > 0 {
          sql := sql + glue;
          display := display + glue;
        }
        sql := sql + childSql;
        display := display + childDisplay;
        i := i + 1;
      }
      ProgressEnd(node, columns, charset, old(binds), binds, sql, display);
      sql := sql + ")";
      display := display + ")";
      return true, sql, display;
    }
  }

  /** The first i children of a node have been translated: their binds, and the texts built so far. */
  ghost predicate Progress(node: FilterNode, columns: seq<OracleColumn>, charset: string, base: seq<BindValue>, i: nat,
                           binds: seq<BindValue>, sql: string, display: string)
    requires i <= |node.children|
  {
    var all := TranslateChildren(node, columns, charset, i, |base|);
    && all.Some? && binds == base + all.value.binds
    && sql == "(" + Concat(JoinLexes(LexesOf(all.value.sql), Glue(node.op.AndOp?)))
    && display == "(" + Concat(ShowLexes(JoinLexes(LexesOf(all.value.sql), Glue(node.op.AndOp?)), binds))
  }

  lemma ProgressStart(node: FilterNode, columns: seq<OracleColumn>, charset: string, base: seq<BindValue>)
    ensures Progress(node, columns, charset, base, 0, base, "(", "(")
  {
    hide Concat, JoinLexes, ShowLexes, LexesOf;
    EmptyChildren(node, columns, charset, |base|, Glue(node.op.AndOp?), base);
    assert base + [] == base && "(" + "" == "(";
  }

  lemma ProgressBinds(node: FilterNode, columns: seq<OracleColumn>, charset: string, base: seq<BindValue>, i: nat,
                      binds: seq<BindValue>, sql: string, display: string)
    requires i <= |node.children| && Progress(node, columns, charset, base, i, binds, sql, display)
    ensures var all := TranslateChildren(node, columns, charset, i, |base|);
            all.Some? && |binds| == |base| + |all.value.binds|
  {
    hide TranslateChildren, Concat, JoinLexes, ShowLexes, LexesOf;
  }

  lemma ProgressStep(node: FilterNode, columns: seq<OracleColumn>, charset: string, base: seq<BindValue>, i: nat,
                     before: seq<BindValue>, sql: string, display: string, after: seq<BindValue>, childSql: string,
                     childDisplay: string)
    requires i < |node.children| && Progress(node, columns, charset, base, i, before, sql, display)
    requires var child := TranslateNode(node.children[i], columns, charset, |before|);
             && child.Some? && after == before + child.value.binds
             && childSql == Text(child.value.sql) && childDisplay == Display(child.value.sql, after)
    ensures var between := if i > 0 then Glue(node.op.AndOp?) else "";
            Progress(node, columns, charset, base, i + 1, after, sql + between + childSql,
                     display + between + childDisplay)
  {
    hide TranslateNode, TranslateChildren, Concat, JoinLexes, ShowLexes, LexesOf, Glue, Text, Display;
    var left := TranslateChildren(node, columns, charset, i, |base|).value.binds;
    ChildStep(node, columns, charset, i, |base|, before, after);
    ConcatAssoc(base, left, TranslateNode(node.children[i], columns, charset, |before|).value.binds);
  }

  lemma ProgressEnd(node: FilterNode, columns: seq<OracleColumn>, charset: string, base: seq<BindValue>,
                    binds: seq<BindValue>, sql: string, display: string)
    requires (node.op.AndOp? || node.op.OrOp?) && node.children != []
    requires Progress(node, columns, charset, base, |node.children|, binds, sql, display)
    ensures var built := TranslateNode(node, columns, charset, |base|);
            && built.Some? && binds == base + built.value.binds
            && sql + ")" == Text(built.value.sql) && display + ")" == Display(built.value.sql, binds)
  {
    hide TranslateNode, TranslateChildren, Concat, JoinLexes, ShowLexes, LexesOf, Glue, Text, Display;
    NodeUnfold(node, columns, charset, |base|);
    NodeTexts(node.op.AndOp?, TranslateChildren(node, columns, charset, |node.children|, |base|).value.sql, binds);
  }

  lemma TimestampSql(n: nat)
    ensures "TO_TIMESTAMP(" + ":b" + Decimal(n) + ", 'YYYY-MM-DD HH24:MI:SS.FF6')" == OperandText(TimestampBind(n))
  {
    hide Decimal, OperandText, FormatSuffix;
    TimestampText(n);
    SuffixIs();
    assert "TO_TIMESTAMP(" + ":b" == "TO_TIMESTAMP(:b";
  }

  lemma SuffixIs()
    ensures FormatSuffix() == ", 'YYYY-MM-DD HH24:MI:SS.FF6')"
  {}

  lemma EmptyList(binds: seq<BindValue>)
    ensures Concat(JoinSlots([])) == "" && Concat(ShowLexes(JoinSlots([]), binds)) == ""
  {}

  lemma {:induction false} ListFails(info: ColumnInfo, charset: string, constants: seq<FilterConstant>, i: nat,
                                     first: nat)
    requires i < |constants| && OperandOf(info, charset, InOp, constants[i]).None?
    ensures TranslateList(info, charset, constants, |constants|, first).None?
    decreases |constants|
  {
    hide OperandOf;
    ListFailsAt(info, charset, constants, i, |constants|, first);
  }

  lemma {:induction false} ListFailsAt(info: ColumnInfo, charset: string, constants: seq<FilterConstant>, i: nat,
                                       n: nat, first: nat)
    requires i < n <= |constants| && OperandOf(info, charset, InOp, constants[i]).None?
    ensures TranslateList(info, charset, constants, n, first).None?
  {
    hide OperandOf;
    if i < n - 1 { ListFailsAt(info, charset, constants, i, n - 1, first); }
  }

  /** Binds appended later do not change what is shown for earlier operands. */
  lemma ShowMore(ls: seq<Lex>, before: seq<BindValue>, after: seq<BindValue>)
    requires before <= after && forall i :: 0 <= i < |ls| && ls[i].Slot? ==> ls[i].operand.n <= |before|
    ensures ShowLexes(ls, after) == ShowLexes(ls, before)
  {}

  lemma {:induction false} SlotsBound(operands: seq<Operand>, n: nat)
    requires forall i :: 0 <= i < |operands| ==> operands[i].n <= n
    ensures forall i :: 0 <= i < |JoinSlots(operands)| && JoinSlots(operands)[i].Slot? ==>
              JoinSlots(operands)[i].operand.n <= n
  {
    if |operands| > 1 { SlotsBound(operands[..|operands| - 1], n); }
  }

  lemma {:induction false} ListBound(info: ColumnInfo, charset: string, constants: seq<FilterConstant>, i: nat,
                                     first: nat)
    requires i <= |constants| && TranslateList(info, charset, constants, i, first).Some?
    ensures forall o <- TranslateList(info, charset, constants, i, first).value.sql :: first < o.n <= first + i
  {
    hide OperandOf;
    if i > 0 { ListBound(info, charset, constants, i - 1, first); }
  }

  lemma ListStep(info: ColumnInfo, charset: string, constants: seq<FilterConstant>, i: nat, first: nat,
                 before: seq<BindValue>, after: seq<BindValue>, o: Operand)
    requires i < |constants| && TranslateList(info, charset, constants, i, first).Some?
    requires OperandOf(info, charset, InOp, constants[i]).Some?
    requires |before| == first + i && after == before + [OperandOf(info, charset, InOp, constants[i]).value.bind]
    requires o == SlotFor(OperandOf(info, charset, InOp, constants[i]).value, |after|)
    ensures var left, next := TranslateList(info, charset, constants, i, first).value,
                              TranslateList(info, charset, constants, i + 1, first);
            var glue := if i > 0 then ", " else "";
            && next.Some? && next.value.binds == left.binds + [OperandOf(info, charset, InOp, constants[i]).value.bind]
            && Concat(JoinSlots(next.value.sql)) == Concat(JoinSlots(left.sql)) + glue + OperandText(o)
            && Concat(ShowLexes(JoinSlots(next.value.sql), after))
               == Concat(ShowLexes(JoinSlots(left.sql), before)) + glue + Shown(o, after)
  {
    hide OperandOf, OperandText, Concat, Shown, SlotFor;
    var left := TranslateList(info, charset, constants, i, first).value;
    ListBound(info, charset, constants, i, first);
    SlotsBound(left.sql, |before|);
    ShowMore(JoinSlots(left.sql), before, after);
    JoinedSlots(left.sql, o, after);
    EmptyList(before);
  }

  lemma JoinedSlots(operands: seq<Operand>, o: Operand, binds: seq<BindValue>)
    ensures var glue := if operands == [] then "" else ", ";
            && Concat(JoinSlots(operands + [o])) == Concat(JoinSlots(operands)) + glue + OperandText(o)
            && Concat(ShowLexes(JoinSlots(operands + [o]), binds))
               == Concat(ShowLexes(JoinSlots(operands), binds)) + glue + Shown(o, binds)
  {
    hide OperandText, Concat, Shown;
    var all := operands + [o];
    OneLex(Slot(o));
    OneLex(Plain(Shown(o, binds)));
    if operands == [] {
      EmptyList(binds);
      assert all == [o];
      assert ShowLexes([Slot(o)], binds) == [Plain(Shown(o, binds))];
    } else {
      assert all[..|all| - 1] == operands && all[|all| - 1] == o;
      var last := [Plain(", "), Slot(o)];
      ConcatAppend(JoinSlots(operands), last);
      ConcatHead(Plain(", "), [Slot(o)]);
      assert last == [Plain(", ")] + [Slot(o)];
      ShowConcat(JoinSlots(operands), last, binds);
      assert ShowLexes(last, binds) == [Plain(", ")] + [Plain(Shown(o, binds))];
      ConcatAppend(ShowLexes(JoinSlots(operands), binds), ShowLexes(last, binds));
      ConcatHead(Plain(", "), [Plain(Shown(o, binds))]);
      assert Concat(JoinSlots(operands)) + (", " + OperandText(o))
          == Concat(JoinSlots(operands)) + ", " + OperandText(o);
    }
  }

  lemma PlainOperand(n: nat, binds: seq<BindValue>)
    requires 1 <= n <= |binds|
    ensures OperandText(Bind(n)) == "" + ":b" + Decimal(n) + "" && Shown(Bind(n), binds) == binds[n - 1].display
  {
    hide Decimal;
  }

  lemma NoColumn(node: FilterNode, columns: seq<OracleColumn>, charset: string, first: nat)
    requires node.column >= |columns|
    ensures TranslateLeaf(node, columns, charset, first).None?
  {}

  lemma InListTexts(column: string, operands: seq<Operand>, binds: seq<BindValue>)
    ensures Text(InList(column, operands)) == "(" + Quoted(column) + " IN (" + Concat(JoinSlots(operands)) + "))"
    ensures Display(InList(column, operands), binds)
         == "(" + Quoted(column) + " IN (" + Concat(ShowLexes(JoinSlots(operands), binds)) + "))"
  {
    hide Concat, Quoted, JoinSlots, SlotsText, ShowLexes;
    InListText(column, operands);
    SlotsTextIs(operands);
    var open := [Plain("("), Name(column), Plain(" IN (")];
    Concat3(Plain("("), Name(column), Plain(" IN ("));
    Bracketed(open, ShowLexes(JoinSlots(operands), binds), "))");
    ShowInList(open, JoinSlots(operands), binds);
  }

  lemma ShowInList(open: seq<Lex>, list: seq<Lex>, binds: seq<BindValue>)
    requires forall i :: 0 <= i < |open| ==> !open[i].Slot?
    ensures ShowLexes(open + list + [Plain("))")], binds) == open + ShowLexes(list, binds) + [Plain("))")]
  {
    hide Shown;
  }

  lemma NodeUnfold(node: FilterNode, columns: seq<OracleColumn>, charset: string, first: nat)
    ensures TranslateNode(node, columns, charset, first)
         == if !node.op.AndOp? && !node.op.OrOp? then TranslateLeaf(node, columns, charset, first)
            else if node.children == [] then None
            else (match TranslateChildren(node, columns, charset, |node.children|, first)
                  case None => None
                  case Some(all) =>
                    Some(Built(if |all.sql| == 1 then Group(all.sql[0]) else Junction(node.op.AndOp?, all.sql),
                               all.binds)))
  {
    hide TranslateLeaf, TranslateChildren;
  }

  lemma EmptyChildren(node: FilterNode, columns: seq<OracleColumn>, charset: string, first: nat, glue: string,
                      binds: seq<BindValue>)
    ensures TranslateChildren(node, columns, charset, 0, first) == Some(Built([], [])) && LexesOf([]) == []
    ensures Concat(JoinLexes([], glue)) == "" && Concat(ShowLexes(JoinLexes([], glue), binds)) == ""
  {}

  lemma {:induction false} ChildrenFail(node: FilterNode, columns: seq<OracleColumn>, charset: string, i: nat, n: nat,
                                        first: nat)
    requires i < n <= |node.children| && TranslateChildren(node, columns, charset, i, first).Some?
    requires TranslateNode(node.children[i], columns, charset,
                           first + |TranslateChildren(node, columns, charset, i, first).value.binds|).None?
    ensures TranslateChildren(node, columns, charset, n, first).None?
  {
    hide TranslateNode;
    if i < n - 1 { ChildrenFail(node, columns, charset, i, n - 1, first); }
  }

  lemma {:induction false} SlotInNumbers(ls: seq<Lex>, i: nat)
    requires i < |ls| && ls[i].Slot?
    ensures ls[i].operand.n in SlotNumbers(ls)
  {
    if i > 0 { SlotInNumbers(ls[1..], i - 1); }
  }

  lemma SlotsUpTo(ls: seq<Lex>, first: nat, n: nat)
    requires SlotNumbers(ls) == Range(first, n)
    ensures forall i :: 0 <= i < |ls| && ls[i].Slot? ==> ls[i].operand.n <= first + n
  {
    hide SlotNumbers;
    forall i | 0 <= i < |ls| && ls[i].Slot?
      ensures ls[i].operand.n <= first + n
    {
      SlotInNumbers(ls, i);
    }
  }

  lemma ChildStep(node: FilterNode, columns: seq<OracleColumn>, charset: string, i: nat, first: nat,
                  before: seq<BindValue>, after: seq<BindValue>)
    requires i < |node.children| && TranslateChildren(node, columns, charset, i, first).Some?
    requires var left := TranslateChildren(node, columns, charset, i, first).value;
             && |before| == first + |left.binds|
             && TranslateNode(node.children[i], columns, charset, |before|).Some?
             && after == before + TranslateNode(node.children[i], columns, charset, |before|).value.binds
    ensures var left, next := TranslateChildren(node, columns, charset, i, first).value,
                              TranslateChildren(node, columns, charset, i + 1, first);
            var last := TranslateNode(node.children[i], columns, charset, |before|).value;
            var glue := Glue(node.op.AndOp?);
            var between := if i > 0 then glue else "";
            && next.Some? && next.value.binds == left.binds + last.binds
            && Concat(JoinLexes(LexesOf(next.value.sql), glue))
               == Concat(JoinLexes(LexesOf(left.sql), glue)) + between + Text(last.sql)
            && Concat(ShowLexes(JoinLexes(LexesOf(next.value.sql), glue), after))
               == Concat(ShowLexes(JoinLexes(LexesOf(left.sql), glue), before)) + between + Display(last.sql, after)
  {
    hide TranslateNode, Concat, Glue, JoinLexes, Text, Display;
    var left := TranslateChildren(node, columns, charset, i, first).value;
    var last := TranslateNode(node.children[i], columns, charset, |before|).value;
    var glue := Glue(node.op.AndOp?);
    ChildrenNumbers(node, columns, charset, i, first);
    SlotsUpTo(JoinLexes(LexesOf(left.sql), glue), first, |left.binds|);
    ShowMore(JoinLexes(LexesOf(left.sql), glue), before, after);
    JoinedConds(left.sql, last.sql, glue, after);
  }

  lemma NoLexes(glue: string, binds: seq<BindValue>)
    ensures Concat(JoinLexes([], glue)) == "" && Concat(ShowLexes(JoinLexes([], glue), binds)) == ""
  {}

  lemma JoinedConds(conds: seq<Cond>, c: Cond, glue: string, binds: seq<BindValue>)
    ensures var between := if conds == [] then "" else glue;
            && Concat(JoinLexes(LexesOf(conds + [c]), glue))
               == Concat(JoinLexes(LexesOf(conds), glue)) + between + Text(c)
            && Concat(ShowLexes(JoinLexes(LexesOf(conds + [c]), glue), binds))
               == Concat(ShowLexes(JoinLexes(LexesOf(conds), glue), binds)) + between + Display(c, binds)
  {
    hide Concat, Lexes, ShowLexes;
    var parts, last := LexesOf(conds), Lexes(c);
    var all := LexesOf(conds + [c]);
    assert all == parts + [last];
    if conds == [] {
      NoLexes(glue, binds);
      assert all[0] == last && parts == [];
    } else {
      assert all[..|all| - 1] == parts && all[|all| - 1] == last;
      var left := JoinLexes(parts, glue);
      ConcatAppend(left + [Plain(glue)], last);
      ConcatAppend(left, [Plain(glue)]);
      OneLex(Plain(glue));
      ShowConcat(left + [Plain(glue)], last, binds);
      ShowConcat(left, [Plain(glue)], binds);
      ShowPlain(glue, binds);
      ConcatAppend(ShowLexes(left, binds) + [Plain(glue)], ShowLexes(last, binds));
      ConcatAppend(ShowLexes(left, binds), [Plain(glue)]);
    }
  }

  lemma ShowPlain(text: string, binds: seq<BindValue>)
    ensures ShowLexes([Plain(text)], binds) == [Plain(text)]
  {}

  lemma NodeTexts(isAnd: bool, children: seq<Cond>, binds: seq<BindValue>)
    requires children != []
    ensures var c := if |children| == 1 then Group(children[0]) else Junction(isAnd, children);
            var joined := JoinLexes(LexesOf(children), Glue(isAnd));
            && Text(c) == "(" + Concat(joined) + ")"
            && Display(c, binds) == "(" + Concat(ShowLexes(joined, binds)) + ")"
  {
    hide Concat, Lexes, ShowLexes, Glue;
    var joined := JoinLexes(LexesOf(children), Glue(isAnd));
    var c := if |children| == 1 then Group(children[0]) else Junction(isAnd, children);
    NodeLexes(isAnd, children);
    Bracketed([Plain("(")], joined, ")");
    OneLex(Plain("("));
    ShowConcat([Plain("(")] + joined, [Plain(")")], binds);
    ShowConcat([Plain("(")], joined, binds);
    ShowPlain("(", binds);
    ShowPlain(")", binds);
    Bracketed([Plain("(")], ShowLexes(joined, binds), ")");
  }

  lemma NodeLexes(isAnd: bool, children: seq<Cond>)
    requires children != []
    ensures Lexes(if |children| == 1 then Group(children[0]) else Junction(isAnd, children))
         == [Plain("(")] + JoinLexes(LexesOf(children), Glue(isAnd)) + [Plain(")")]
  {
    hide Glue;
    JunctionLexes(isAnd, children);
  }

  /** A filter's SQL text, the text shown for it, and its binds. */
  datatype Fragment = Fragment(sql: string, display: string, binds: seq<BindValue>)

  function FragmentOf(node: FilterNode, columns: seq<OracleColumn>, charset: string): Option<Fragment> {
    match TranslateNode(node, columns, charset, 0)
    case None => None
    case Some(built) => Some(Fragment(Text(built.sql), Display(built.sql, built.binds), built.binds))
  }

  method TranslateFilter(node: FilterNode, columns: seq<OracleColumn>, charset: string)
      returns (fragment: Option<Fragment>)
    ensures fragment == FragmentOf(node, columns, charset)
  {
    hide Text, Display, TranslateNode;
    ghost var built := TranslateNode(node, columns, charset, 0);
    assert built.Some? ==> [] + built.value.binds == built.value.binds;
    var builder := new Builder(columns, charset);
    var ok, sql, display := builder.Node(node);
    if !ok {
      return None;
    }
    return Some(Fragment(sql, display, builder.binds));
  }
}
