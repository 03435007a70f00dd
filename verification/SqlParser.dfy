/** Reading the text of a condition back: every text that the translation can build has one reading. */
module SqlParser {
  import opened Digits
  import opened Numerals
  import opened NumberReading
  import opened SqlConditions

  datatype Parsed<T> = Parsed(value: T, rest: string)

  function Strip(s: string, prefix: string): (r: Option<string>)
    ensures r.Some? ==> |s| == |prefix| + |r.value|
  {
    if |prefix| <= |s| && s[..|prefix|] == prefix then Some(s[|prefix|..]) else None
  }

  function ParseName(s: string): (r: Option<Parsed<string>>)
    ensures r.Some? ==> |r.value.rest| < |s|
  {
    if s == "" || s[0] != '"' then None
    else
      var i := IndexOf(s[1..], '"');
      if i >= |s| - 1 then None else Some(Parsed(s[1..1 + i], s[i + 2..]))
  }

  function ParseNumber(s: string): (r: Option<Parsed<nat>>)
    ensures r.Some? ==> |r.value.rest| < |s|
  {
    var m := DigitRun(s);
    if m == 0 then None else Some(Parsed(NumberOf(s[..m]), s[m..]))
  }

  function FormatSuffix(): string {
    ", 'YYYY-MM-DD HH24:MI:SS.FF6')"
  }

  function ParseOperand(s: string): (r: Option<Parsed<Operand>>)
    ensures r.Some? ==> |r.value.rest| < |s|
  {
    if Strip(s, ":b").Some? then
      match ParseNumber(Strip(s, ":b").value)
      case None => None
      case Some(p) => Some(Parsed(Bind(p.value), p.rest))
    else if Strip(s, "TO_TIMESTAMP(:b").Some? then
      match ParseNumber(Strip(s, "TO_TIMESTAMP(:b").value)
      case None => None
      case Some(p) =>
        match Strip(p.rest, FormatSuffix())
        case None => None
        case Some(rest) => Some(Parsed(TimestampBind(p.value), rest))
    else None
  }

  /** The operands of an IN list, up to and with its closing brackets. */
  function ParseOperands(s: string): (r: Option<Parsed<seq<Operand>>>)
    ensures r.Some? ==> |r.value.rest| < |s|
    decreases |s|
  {
    match ParseOperand(s)
    case None => None
    case Some(p) =>
      if Strip(p.rest, "))").Some? then Some(Parsed([p.value], Strip(p.rest, "))").value))
      else if Strip(p.rest, ", ").Some? then
        match ParseOperands(Strip(p.rest, ", ").value)
        case None => None
        case Some(q) => Some(Parsed([p.value] + q.value, q.rest))
      else None
  }

  function ParseOp(s: string): (r: Option<Parsed<Op>>)
    ensures r.Some? ==> |r.value.rest| < |s|
  {
    if Strip(s, " = ").Some? then Some(Parsed(Eq, Strip(s, " = ").value))
    else if Strip(s, " <> ").Some? then Some(Parsed(Ne, Strip(s, " <> ").value))
    else if Strip(s, " < ").Some? then Some(Parsed(Lt, Strip(s, " < ").value))
    else if Strip(s, " <= ").Some? then Some(Parsed(Le, Strip(s, " <= ").value))
    else if Strip(s, " > ").Some? then Some(Parsed(Gt, Strip(s, " > ").value))
    else if Strip(s, " >= ").Some? then Some(Parsed(Ge, Strip(s, " >= ").value))
    else None
  }

  /** The rest of a comparison after its operand: its end, or the upper end of a range of a day. */
  function ParseComparison(column: string, op: Op, operand: Operand, s: string): (r: Option<Parsed<Cond>>)
    ensures r.Some? ==> |r.value.rest| < |s|
  {
    if Strip(s, ")").Some? then Some(Parsed(Compare(column, op, operand), Strip(s, ")").value))
    else if op != Ge || operand.TimestampBind? || Strip(s, " AND ").None? then None
    else
      match ParseName(Strip(s, " AND ").value)
      case None => None
      case Some(name) =>
        match Strip(name.rest, " < ")
        case None => None
        case Some(upper) =>
          match ParseOperand(upper)
          case None => None
          case Some(hi) =>
            match Strip(hi.rest, " + 1)")
            case None => None
            case Some(rest) =>
              if name.value == column && hi.value.Bind? then Some(Parsed(DayRange(column, operand.n, hi.value.n), rest))
              else None
  }

  /** The rest of a condition on one column. */
  function ParseLeaf(column: string, s: string): (r: Option<Parsed<Cond>>)
    ensures r.Some? ==> |r.value.rest| < |s|
  {
    if Strip(s, " IS NULL)").Some? then Some(Parsed(NullTest(column, true), Strip(s, " IS NULL)").value))
    else if Strip(s, " IS NOT NULL)").Some? then Some(Parsed(NullTest(column, false), Strip(s, " IS NOT NULL)").value))
    else if Strip(s, " IN (").Some? then
      match ParseOperands(Strip(s, " IN (").value)
      case None => None
      case Some(p) => Some(Parsed(InList(column, p.value), p.rest))
    else
      match ParseOp(s)
      case None => None
      case Some(op) =>
        match ParseOperand(op.rest)
        case None => None
        case Some(operand) => ParseComparison(column, op.value, operand.value, operand.rest)
  }

  function ParseCond(s: string): (r: Option<Parsed<Cond>>)
    ensures r.Some? ==> |r.value.rest| < |s|
    decreases |s|
  {
    if |s| < 2 || s[0] != '(' then None
    else if s[1] == '"' then
      match ParseName(s[1..])
      case None => None
      case Some(name) => ParseLeaf(name.value, name.rest)
    else
      match ParseCond(s[1..])
      case None => None
      case Some(first) =>
        if Strip(first.rest, ")").Some? then Some(Parsed(Group(first.value), Strip(first.rest, ")").value))
        else
          var isAnd := Strip(first.rest, " AND ").Some?;
          match ParseTail(first.rest, isAnd)
          case None => None
          case Some(others) => Some(Parsed(Junction(isAnd, [first.value] + others.value), others.rest))
  }

  function Connective(isAnd: bool): string {
    if isAnd then " AND " else " OR "
  }

  /** Further conditions with the same connective, up to and with the closing bracket. */
  function ParseTail(s: string, isAnd: bool): (r: Option<Parsed<seq<Cond>>>)
    ensures r.Some? ==> |r.value.rest| < |s|
    decreases |s|
  {
    if Strip(s, ")").Some? then Some(Parsed([], Strip(s, ")").value))
    else if Strip(s, Connective(isAnd)).None? then None
    else
      match ParseCond(Strip(s, Connective(isAnd)).value)
      case None => None
      case Some(first) =>
        match ParseTail(first.rest, isAnd)
        case None => None
        case Some(others) => Some(Parsed([first.value] + others.value, others.rest))
  }

  /** What a text means: the condition that it is the text of. */
  function Parse(s: string): Option<Cond> {
    match ParseCond(s)
    case None => None
    case Some(p) => if p.rest == "" then Some(p.value) else None
  }

  // Reading back

  lemma StripOf(prefix: string, rest: string)
    ensures Strip(prefix + rest, prefix) == Some(rest)
  {}

  lemma StripNot(s: string, prefix: string, i: nat)
    requires i < |prefix| && i < |s| && s[i] != prefix[i]
    ensures Strip(s, prefix) == None
  {
    if |prefix| <= |s| { assert s[..|prefix|][i] == s[i]; }
  }

  lemma NameReads(name: string, rest: string)
    requires QuoteFree(name)
    ensures ParseName(Quoted(name) + rest) == Some(Parsed(name, rest))
  {
    hide IndexOf;
    var s := Quoted(name) + rest;
    assert s[1..] == name + ("\"" + rest);
    IndexIs(s[1..], '"', |name|);
    assert s[1..1 + |name|] == name && s[|name| + 2..] == rest;
  }

  lemma NumberReads(n: nat, rest: string)
    requires rest == "" || !IsDigit(rest[0])
    ensures ParseNumber(Decimal(n) + rest) == Some(Parsed(n, rest))
  {
    hide Decimal, NumberOf, DigitRun;
    DecimalDigits(n);
    NumberOfDecimal(n);
    RunOfDigits(Decimal(n), rest);
    var m := |Decimal(n)|;
    assert (Decimal(n) + rest)[..m] == Decimal(n) && (Decimal(n) + rest)[m..] == rest;
  }

  lemma TimestampText(n: nat)
    ensures OperandText(TimestampBind(n)) == "TO_TIMESTAMP(:b" + Decimal(n) + FormatSuffix()
  {
    hide Decimal;
  }

  lemma OperandReads(o: Operand, rest: string)
    requires rest == "" || !IsDigit(rest[0])
    ensures ParseOperand(OperandText(o) + rest) == Some(Parsed(o, rest))
  {
    if o.Bind? { BindReads(o.n, rest); } else { TimestampReads(o.n, rest); }
  }

  lemma BindReads(n: nat, rest: string)
    requires rest == "" || !IsDigit(rest[0])
    ensures ParseOperand(OperandText(Bind(n)) + rest) == Some(Parsed(Bind(n), rest))
  {
    hide Decimal, NumberOf, ParseNumber, Strip, FormatSuffix;
    assert OperandText(Bind(n)) + rest == ":b" + (Decimal(n) + rest);
    StripOf(":b", Decimal(n) + rest);
    NumberReads(n, rest);
  }

  lemma TimestampReads(n: nat, rest: string)
    ensures ParseOperand(OperandText(TimestampBind(n)) + rest) == Some(Parsed(TimestampBind(n), rest))
  {
    hide Decimal, NumberOf, ParseNumber, Strip, FormatSuffix, OperandText;
    var tail := FormatSuffix() + rest;
    var s := OperandText(TimestampBind(n)) + rest;
    TimestampText(n);
    assert s == "TO_TIMESTAMP(:b" + (Decimal(n) + tail);
    StripNot(s, ":b", 0);
    StripOf("TO_TIMESTAMP(:b", Decimal(n) + tail);
    SuffixHead();
    NumberReads(n, tail);
    StripOf(FormatSuffix(), rest);
  }

  lemma SuffixHead()
    ensures FormatSuffix() != "" && FormatSuffix()[0] == ','
  {}

  /** The text of an IN list from its i-th operand on. */
  function SlotsText(operands: seq<Operand>): string {
    if operands == [] then ""
    else if |operands| == 1 then OperandText(operands[0])
    else OperandText(operands[0]) + ", " + SlotsText(operands[1..])
  }

  lemma {:induction false} OperandsRead(operands: seq<Operand>, rest: string)
    requires operands != []
    ensures ParseOperands(SlotsText(operands) + "))" + rest) == Some(Parsed(operands, rest))
    decreases |operands|
  {
    hide OperandText, ParseOperand, Strip;
    var s := SlotsText(operands) + "))" + rest;
    if |operands| == 1 {
      assert s == OperandText(operands[0]) + ("))" + rest);
      OperandReads(operands[0], "))" + rest);
      StripOf("))", rest);
      assert [operands[0]] == operands;
    } else {
      var others := SlotsText(operands[1..]) + "))" + rest;
      assert s == OperandText(operands[0]) + (", " + others);
      OperandReads(operands[0], ", " + others);
      StripNot(", " + others, "))", 0);
      StripOf(", ", others);
      OperandsRead(operands[1..], rest);
      assert [operands[0]] + operands[1..] == operands;
    }
  }

  lemma OpReads(op: Op, rest: string)
    ensures ParseOp(Symbol(op) + rest) == Some(Parsed(op, rest))
  {
    hide Strip;
    var s := Symbol(op) + rest;
    StripOf(Symbol(op), rest);
    match op
    case Eq =>
    case Ne => StripNot(s, " = ", 1);
    case Lt =>
      StripNot(s, " = ", 1);
      StripNot(s, " <> ", 2);
    case Le =>
      StripNot(s, " = ", 1);
      StripNot(s, " <> ", 2);
      StripNot(s, " < ", 2);
    case Gt =>
      StripNot(s, " = ", 1);
      StripNot(s, " <> ", 1);
      StripNot(s, " < ", 1);
      StripNot(s, " <= ", 1);
    case Ge =>
      StripNot(s, " = ", 1);
      StripNot(s, " <> ", 1);
      StripNot(s, " < ", 1);
      StripNot(s, " <= ", 1);
      StripNot(s, " > ", 2);
  }

  lemma ComparisonReads(column: string, op: Op, operand: Operand, rest: string)
    ensures ParseLeaf(column, Symbol(op) + OperandText(operand) + ")" + rest)
         == Some(Parsed(Compare(column, op, operand), rest))
  {
    hide Strip, ParseOp, ParseOperand, OperandText, ParseOperands;
    var tail := OperandText(operand) + (")" + rest);
    var s := Symbol(op) + OperandText(operand) + ")" + rest;
    assert s == Symbol(op) + tail;
    NotNullTest(op, tail);
    OpReads(op, tail);
    OperandReads(operand, ")" + rest);
    StripOf(")", rest);
  }

  lemma NotNullTest(op: Op, tail: string)
    ensures Strip(Symbol(op) + tail, " IS NULL)") == None
    ensures Strip(Symbol(op) + tail, " IS NOT NULL)") == None
    ensures Strip(Symbol(op) + tail, " IN (") == None
  {
    hide Strip;
    var s := Symbol(op) + tail;
    assert s[1] != 'I';
    StripNot(s, " IS NULL)", 1);
    StripNot(s, " IS NOT NULL)", 1);
    StripNot(s, " IN (", 1);
  }

  lemma DayRangeReads(column: string, lo: nat, hi: nat, rest: string)
    requires QuoteFree(column)
    ensures ParseLeaf(column, " >= " + OperandText(Bind(lo)) + " AND " + Quoted(column) + " < " + OperandText(Bind(hi))
                              + " + 1)" + rest)
         == Some(Parsed(DayRange(column, lo, hi), rest))
  {
    hide Strip, ParseOp, ParseOperand, OperandText, ParseOperands, ParseName, Quoted;
    var last := " + 1)" + rest;
    var upper := OperandText(Bind(hi)) + last;
    var second := Quoted(column) + (" < " + upper);
    var after := " AND " + second;
    var tail := OperandText(Bind(lo)) + after;
    assert " >= " + OperandText(Bind(lo)) + " AND " + Quoted(column) + " < " + OperandText(Bind(hi)) + " + 1)" + rest
        == " >= " + tail;
    assert Symbol(Ge) == " >= ";
    NotNullTest(Ge, tail);
    OpReads(Ge, tail);
    OperandReads(Bind(lo), after);
    StripNot(after, ")", 0);
    StripOf(" AND ", second);
    NameReads(column, " < " + upper);
    StripOf(" < ", upper);
    OperandReads(Bind(hi), last);
    StripOf(" + 1)", rest);
  }

  // The text of each kind of condition, put together as it is read

  lemma {:induction false} SlotsTextIs(operands: seq<Operand>)
    ensures Concat(JoinSlots(operands)) == SlotsText(operands)
  {
    hide OperandText;
    if |operands| == 1 {
      OneLex(Slot(operands[0]));
    } else if |operands| > 1 {
      var n := |operands| - 1;
      SlotsTextIs(operands[..n]);
      ConcatAppend(JoinSlots(operands[..n]), [Plain(", "), Slot(operands[n])]);
      OneLex(Slot(operands[n]));
      ConcatHead(Plain(", "), [Slot(operands[n])]);
      SlotsTextAppend(operands[..n], operands[n]);
      assert operands == operands[..n] + [operands[n]];
      ConcatAssoc(SlotsText(operands[..n]), ", ", OperandText(operands[n]));
    }
  }

  lemma OneLex(l: Lex)
    ensures Concat([l]) == LexText(l)
  {
    assert [l][1..] == [] && LexText(l) + "" == LexText(l);
  }

  lemma ConcatHead(l: Lex, ls: seq<Lex>)
    ensures Concat([l] + ls) == LexText(l) + Concat(ls)
  {
    assert ([l] + ls)[1..] == ls;
  }

  lemma {:induction false} SlotsTextAppend(operands: seq<Operand>, o: Operand)
    requires operands != []
    ensures SlotsText(operands + [o]) == SlotsText(operands) + ", " + OperandText(o)
  {
    hide OperandText;
    var all := operands + [o];
    if |operands| == 1 {
      assert all[1..] == [o] && SlotsText([o]) == OperandText(o);
    } else {
      SlotsTextAppend(operands[1..], o);
      assert all[1..] == operands[1..] + [o];
      var head := OperandText(operands[0]) + ", ";
      ConcatAssoc(head, SlotsText(operands[1..]) + ", ", OperandText(o));
      ConcatAssoc(head, SlotsText(operands[1..]), ", ");
    }
  }

  /** The text of further conditions, each after the connective. */
  function TailText(children: seq<Cond>, isAnd: bool): string {
    if children == [] then "" else Glue(isAnd) + Text(children[0]) + TailText(children[1..], isAnd)
  }

  lemma {:induction false} TailTextAppend(children: seq<Cond>, c: Cond, isAnd: bool)
    ensures TailText(children + [c], isAnd) == TailText(children, isAnd) + Glue(isAnd) + Text(c)
  {
    hide Text, Glue;
    var all := children + [c];
    if children == [] {
      assert all[0] == c && all[1..] == [];
    } else {
      TailTextAppend(children[1..], c, isAnd);
      assert all[0] == children[0] && all[1..] == children[1..] + [c];
      var head := Glue(isAnd) + Text(children[0]);
      ConcatAssoc(head, TailText(children[1..], isAnd) + Glue(isAnd), Text(c));
      ConcatAssoc(head, TailText(children[1..], isAnd), Glue(isAnd));
    }
  }

  function LexesOf(children: seq<Cond>): (parts: seq<seq<Lex>>)
    ensures |parts| == |children| && forall i :: 0 <= i < |children| ==> parts[i] == Lexes(children[i])
  {
    seq(|children|, i requires 0 <= i < |children| => Lexes(children[i]))
  }

  lemma JoinStep(parts: seq<seq<Lex>>, glue: string)
    requires |parts| > 1
    ensures Concat(JoinLexes(parts, glue))
         == Concat(JoinLexes(parts[..|parts| - 1], glue)) + glue + Concat(parts[|parts| - 1])
  {
    hide Concat;
    var left, last := JoinLexes(parts[..|parts| - 1], glue), parts[|parts| - 1];
    ConcatAppend(left + [Plain(glue)], last);
    ConcatAppend(left, [Plain(glue)]);
    OneLex(Plain(glue));
  }

  lemma {:induction false} JoinedText(children: seq<Cond>, isAnd: bool)
    requires children != []
    ensures Concat(JoinLexes(LexesOf(children), Glue(isAnd))) == Text(children[0]) + TailText(children[1..], isAnd)
    decreases |children|
  {
    hide Concat, Lexes, Glue, TailText;
    var n, parts := |children| - 1, LexesOf(children);
    if n == 0 {
      NoTail(isAnd);
      assert children[1..] == [] && Text(children[0]) + "" == Text(children[0]);
    } else {
      JoinedText(children[..n], isAnd);
      JoinStep(parts, Glue(isAnd));
      TailTextAppend(children[1..n], children[n], isAnd);
      assert parts[..n] == LexesOf(children[..n]);
      assert children[..n][1..] == children[1..n] && children[1..] == children[1..n] + [children[n]];
      Regroup(Text(children[0]), TailText(children[1..n], isAnd), Glue(isAnd), Text(children[n]));
    }
  }

  lemma NoTail(isAnd: bool)
    ensures TailText([], isAnd) == ""
  {}

  lemma Regroup(a: string, b: string, c: string, d: string)
    ensures (a + b) + c + d == a + (b + c + d)
  {}

  lemma GroupText(child: Cond)
    ensures Text(Group(child)) == "(" + Text(child) + ")"
  {
    Bracketed([Plain("(")], Lexes(child), ")");
    OneLex(Plain("("));
  }

  lemma Bracketed(open: seq<Lex>, ls: seq<Lex>, close: string)
    ensures Concat(open + ls + [Plain(close)]) == Concat(open) + Concat(ls) + close
  {
    hide Concat;
    ConcatAppend(open + ls, [Plain(close)]);
    ConcatAppend(open, ls);
    OneLex(Plain(close));
  }

  lemma JunctionText(isAnd: bool, children: seq<Cond>)
    requires children != []
    ensures Text(Junction(isAnd, children)) == "(" + Text(children[0]) + TailText(children[1..], isAnd) + ")"
  {
    hide Concat, JoinLexes, Glue, TailText;
    Bracketed([Plain("(")], JoinLexes(LexesOf(children), Glue(isAnd)), ")");
    OneLex(Plain("("));
    JoinedText(children, isAnd);
    JunctionLexes(isAnd, children);
  }

  lemma JunctionLexes(isAnd: bool, children: seq<Cond>)
    ensures Lexes(Junction(isAnd, children)) == [Plain("(")] + JoinLexes(LexesOf(children), Glue(isAnd)) + [Plain(")")]
  {
    hide JoinLexes, Glue;
    assert LexesOf(children) == seq(|children|, i requires 0 <= i < |children| => Lexes(children[i]));
  }

  lemma NullTestText(column: string, isNull: bool)
    ensures Text(NullTest(column, isNull)) == "(" + Quoted(column) + if isNull then " IS NULL)" else " IS NOT NULL)"
  {
    hide Concat, Quoted;
    var last := Plain(if isNull then " IS NULL)" else " IS NOT NULL)");
    OneLex(last);
    ConcatHead(Name(column), [last]);
    ConcatHead(Plain("("), [Name(column)] + [last]);
    assert Lexes(NullTest(column, isNull)) == [Plain("(")] + ([Name(column)] + [last]);
    assert "(" + (Quoted(column) + last.text) == "(" + Quoted(column) + last.text;
  }

  lemma InListText(column: string, operands: seq<Operand>)
    ensures Text(InList(column, operands)) == "(" + Quoted(column) + " IN (" + SlotsText(operands) + "))"
  {
    hide Concat, Quoted, JoinSlots, SlotsText;
    var open := [Plain("("), Name(column), Plain(" IN (")];
    SlotsTextIs(operands);
    Bracketed(open, JoinSlots(operands), "))");
    OneLex(Plain(" IN ("));
    ConcatHead(Name(column), [Plain(" IN (")]);
    ConcatHead(Plain("("), [Name(column)] + [Plain(" IN (")]);
    assert open == [Plain("(")] + ([Name(column)] + [Plain(" IN (")]);
    assert "(" + (Quoted(column) + " IN (") == "(" + Quoted(column) + " IN (";
  }

  lemma CompareText(column: string, op: Op, o: Operand)
    ensures Text(Compare(column, op, o)) == "(" + Quoted(column) + Symbol(op) + OperandText(o) + ")"
  {
    hide Concat, Quoted, OperandText, Symbol;
    OneLex(Plain(")"));
    ConcatHead(Slot(o), [Plain(")")]);
    ConcatHead(Plain(Symbol(op)), [Slot(o)] + [Plain(")")]);
    ConcatHead(Name(column), [Plain(Symbol(op))] + ([Slot(o)] + [Plain(")")]));
    ConcatHead(Plain("("), [Name(column)] + ([Plain(Symbol(op))] + ([Slot(o)] + [Plain(")")])));
    assert Lexes(Compare(column, op, o))
        == [Plain("(")] + ([Name(column)] + ([Plain(Symbol(op))] + ([Slot(o)] + [Plain(")")])));
  }

  lemma DayRangeText(column: string, lo: nat, hi: nat)
    ensures Text(DayRange(column, lo, hi))
         == "(" + Quoted(column) + " >= " + OperandText(Bind(lo)) + " AND " + Quoted(column) + " < "
          + OperandText(Bind(hi)) + " + 1)"
  {
    hide Concat, Quoted, OperandText;
    var l9 := [Plain(" + 1)")];
    var l8 := [Slot(Bind(hi))] + l9;
    var l7 := [Plain(" < ")] + l8;
    var l6 := [Name(column)] + l7;
    var l5 := [Plain(" AND ")] + l6;
    var l4 := [Slot(Bind(lo))] + l5;
    var l3 := [Plain(" >= ")] + l4;
    var l2 := [Name(column)] + l3;
    OneLex(Plain(" + 1)"));
    ConcatHead(Slot(Bind(hi)), l9);
    ConcatHead(Plain(" < "), l8);
    ConcatHead(Name(column), l7);
    ConcatHead(Plain(" AND "), l6);
    ConcatHead(Slot(Bind(lo)), l5);
    ConcatHead(Plain(" >= "), l4);
    ConcatHead(Name(column), l3);
    ConcatHead(Plain("("), l2);
    assert Lexes(DayRange(column, lo, hi)) == [Plain("(")] + l2;
  }

  lemma TextOpens(c: Cond)
    requires WellFormed(c)
    ensures Text(c) != "" && Text(c)[0] == '('
  {
    hide Text;
    match c
    case Group(child) => GroupText(child);
    case Junction(isAnd, children) => JunctionText(isAnd, children);
    case NullTest(column, isNull) => NullTestText(column, isNull);
    case Compare(column, op, operand) => CompareText(column, op, operand);
    case InList(column, operands) => InListText(column, operands);
    case DayRange(column, lo, hi) => DayRangeText(column, lo, hi);
  }

  lemma LeafReads(column: string, body: string, c: Cond, rest: string)
    requires QuoteFree(column) && ParseLeaf(column, body + rest) == Some(Parsed(c, rest))
    ensures ParseCond("(" + Quoted(column) + body + rest) == Some(Parsed(c, rest))
  {
    hide ParseLeaf, ParseName;
    var s := "(" + Quoted(column) + body + rest;
    NameReads(column, body + rest);
    assert s[1..] == Quoted(column) + (body + rest);
    assert s[1] == '"';
  }

  /** The text of a condition reads back as the condition, whatever follows it. */
  lemma {:induction false} TextReads(c: Cond, rest: string)
    requires WellFormed(c)
    ensures ParseCond(Text(c) + rest) == Some(Parsed(c, rest))
    decreases c, 1
  {
    hide Text, ParseCond, ParseLeaf, Quoted, OperandText, Symbol, SlotsText;
    match c
    case Group(child) =>
      GroupText(child);
      TextReads(child, ")" + rest);
      GroupReads(child, rest);
    case Junction(isAnd, children) =>
      JunctionText(isAnd, children);
      var tail := TailText(children[1..], isAnd) + ")" + rest;
      TextReads(children[0], tail);
      TailReads(c, 1, rest);
      JunctionReads(isAnd, children, rest);
    case NullTest(column, isNull) =>
      NullTestText(column, isNull);
      NullTestReads(column, isNull, rest);
    case Compare(column, op, operand) =>
      CompareText(column, op, operand);
      ComparisonReads(column, op, operand, rest);
      LeafReads(column, Symbol(op) + OperandText(operand) + ")", c, rest);
      assert "(" + Quoted(column) + (Symbol(op) + OperandText(operand) + ")")
          == "(" + Quoted(column) + Symbol(op) + OperandText(operand) + ")";
    case InList(column, operands) =>
      InListText(column, operands);
      InListReads(column, operands, rest);
    case DayRange(column, lo, hi) =>
      DayRangeText(column, lo, hi);
      DayRangeReads(column, lo, hi, rest);
      var body := " >= " + OperandText(Bind(lo)) + " AND " + Quoted(column) + " < " + OperandText(Bind(hi)) + " + 1)";
      LeafReads(column, body, c, rest);
      assert "(" + Quoted(column) + body
          == "(" + Quoted(column) + " >= " + OperandText(Bind(lo)) + " AND " + Quoted(column) + " < "
             + OperandText(Bind(hi)) + " + 1)";
  }

  lemma NullTestReads(column: string, isNull: bool, rest: string)
    requires QuoteFree(column)
    ensures ParseCond("(" + Quoted(column) + (if isNull then " IS NULL)" else " IS NOT NULL)") + rest)
         == Some(Parsed(NullTest(column, isNull), rest))
  {
    hide Strip, ParseCond, Quoted;
    var body := if isNull then " IS NULL)" else " IS NOT NULL)";
    StripOf(body, rest);
    if !isNull { StripNot(body + rest, " IS NULL)", 5); }
    LeafReads(column, body, NullTest(column, isNull), rest);
  }

  lemma InListReads(column: string, operands: seq<Operand>, rest: string)
    requires QuoteFree(column) && operands != []
    ensures ParseCond("(" + Quoted(column) + " IN (" + SlotsText(operands) + "))" + rest)
         == Some(Parsed(InList(column, operands), rest))
  {
    hide Strip, ParseCond, Quoted, SlotsText, ParseOperands;
    var list := SlotsText(operands) + "))" + rest;
    var body := " IN (" + SlotsText(operands) + "))";
    assert body + rest == " IN (" + list;
    StripNot(body + rest, " IS NULL)", 2);
    StripNot(body + rest, " IS NOT NULL)", 2);
    StripOf(" IN (", list);
    OperandsRead(operands, rest);
    LeafReads(column, body, InList(column, operands), rest);
    assert "(" + Quoted(column) + body == "(" + Quoted(column) + " IN (" + SlotsText(operands) + "))";
  }

  lemma GroupReads(child: Cond, rest: string)
    requires WellFormed(child) && ParseCond(Text(child) + (")" + rest)) == Some(Parsed(child, ")" + rest))
    ensures ParseCond("(" + Text(child) + ")" + rest) == Some(Parsed(Group(child), rest))
  {
    hide Text, Strip, WellFormed;
    var s := "(" + Text(child) + ")" + rest;
    TextOpens(child);
    BehindGroup(Text(child), rest);
    assert s[1] == '(';
    StripOf(")", rest);
  }

  lemma JunctionReads(isAnd: bool, children: seq<Cond>, rest: string)
    requires |children| > 1 && WellFormed(children[0])
    requires var tail := TailText(children[1..], isAnd) + ")" + rest;
             && ParseCond(Text(children[0]) + tail) == Some(Parsed(children[0], tail))
             && ParseTail(tail, isAnd) == Some(Parsed(children[1..], rest))
    ensures ParseCond("(" + Text(children[0]) + TailText(children[1..], isAnd) + ")" + rest)
         == Some(Parsed(Junction(isAnd, children), rest))
  {
    hide Text, Strip, WellFormed, ParseTail, TailText;
    var tail := TailText(children[1..], isAnd) + ")" + rest;
    var s := "(" + Text(children[0]) + TailText(children[1..], isAnd) + ")" + rest;
    TextOpens(children[0]);
    BehindBracket(Text(children[0]), TailText(children[1..], isAnd), rest);
    assert s[1] == '(';
    TailOpens(children[1..], isAnd, ")" + rest);
    ConcatAssoc(TailText(children[1..], isAnd), ")", rest);
    assert [children[0]] + children[1..] == children;
  }

  lemma BehindGroup(child: string, rest: string)
    ensures ("(" + child + ")" + rest)[1..] == child + (")" + rest)
  {}

  lemma BehindBracket(first: string, tail: string, rest: string)
    ensures ("(" + first + tail + ")" + rest)[1..] == first + (tail + ")" + rest)
  {}

  /** A tail starts with its connective, and so with nothing else. */
  lemma TailOpens(children: seq<Cond>, isAnd: bool, rest: string)
    requires children != []
    ensures Strip(TailText(children, isAnd) + rest, ")") == None
    ensures Strip(TailText(children, isAnd) + rest, if isAnd then " AND " else " OR ")
         == Some(Text(children[0]) + (TailText(children[1..], isAnd) + rest))
    ensures !isAnd ==> Strip(TailText(children, isAnd) + rest, " AND ") == None
  {
    hide Text, Strip;
    assert Glue(isAnd) == if isAnd then " AND " else " OR ";
    var after := Text(children[0]) + (TailText(children[1..], isAnd) + rest);
    var s := TailText(children, isAnd) + rest;
    assert s == Glue(isAnd) + after;
    StripOf(Glue(isAnd), after);
    StripNot(s, ")", 0);
    if !isAnd { StripNot(s, " AND ", 1); }
  }

  lemma {:induction false} TailReads(c: Cond, i: nat, rest: string)
    requires c.Junction? && WellFormed(c) && 0 < i <= |c.children|
    ensures ParseTail(TailText(c.children[i..], c.isAnd) + ")" + rest, c.isAnd)
         == Some(Parsed(c.children[i..], rest))
    decreases c, 0, |c.children| - i
  {
    hide Text, Strip, ParseCond, Glue;
    var children, isAnd := c.children[i..], c.isAnd;
    var s := TailText(children, isAnd) + ")" + rest;
    if children == [] {
      assert s == ")" + rest;
      StripOf(")", rest);
    } else {
      var tail := TailText(children[1..], isAnd) + ")" + rest;
      TailOpens(children, isAnd, ")" + rest);
      assert s == TailText(children, isAnd) + (")" + rest);
      assert TailText(children[1..], isAnd) + (")" + rest) == tail;
      TextReads(c.children[i], tail);
      assert children[1..] == c.children[i + 1..];
      TailReads(c, i + 1, rest);
      assert [children[0]] + children[1..] == children;
    }
  }

  /** The text of a condition has one reading: the condition. */
  lemma TextParses(c: Cond)
    requires WellFormed(c)
    ensures Parse(Text(c)) == Some(c)
  {
    hide Text, ParseCond;
    TextReads(c, "");
    assert Text(c) + "" == Text(c);
  }

  /** Two conditions with the same text are the same. */
  lemma TextInjective(c1: Cond, c2: Cond)
    requires WellFormed(c1) && WellFormed(c2) && Text(c1) == Text(c2)
    ensures c1 == c2
  {
    hide Text, Parse;
    TextParses(c1);
    TextParses(c2);
  }
}
