/** The placeholders of a translated filter: numbered in the order of the text, one for each bind. */
module FilterNumbering {
  import opened NumberReading
  import opened Calendar
  import opened SqlConditions
  import opened SqlParser
  import opened OracleColumns
  import opened FilterSql
  import opened FilterSoundness

  /** Numbers first + 1, ..., first + n */
  function Range(first: nat, n: nat): (r: seq<nat>)
    ensures |r| == n && forall i :: 0 <= i < n ==> r[i] == first + 1 + i
  {
    seq(n, i requires 0 <= i < n => first + 1 + i)
  }

  lemma RangeConcat(first: nat, m: nat, n: nat)
    ensures Range(first, m) + Range(first + m, n) == Range(first, m + n)
  {}

  lemma {:induction false} SlotNumbersConcat(s: seq<Lex>, t: seq<Lex>)
    ensures SlotNumbers(s + t) == SlotNumbers(s) + SlotNumbers(t)
  {
    if s == [] {
      assert s + t == t;
    } else {
      SlotNumbersConcat(s[1..], t);
      assert (s + t)[1..] == s[1..] + t;
    }
  }

  lemma PlainNumbers(text: string)
    ensures SlotNumbers([Plain(text)]) == []
  {
    OneSlot(Plain(text));
  }

  lemma BracketedNumbers(open: seq<Lex>, ls: seq<Lex>, close: string)
    requires forall i :: 0 <= i < |open| ==> !open[i].Slot?
    ensures SlotNumbers(open + ls + [Plain(close)]) == SlotNumbers(ls)
  {
    hide SlotNumbers;
    SlotNumbersConcat(open + ls, [Plain(close)]);
    SlotNumbersConcat(open, ls);
    PlainNumbers(close);
    NoSlots(open);
  }

  lemma {:induction false} NoSlots(ls: seq<Lex>)
    requires forall i :: 0 <= i < |ls| ==> !ls[i].Slot?
    ensures SlotNumbers(ls) == []
  {
    if ls != [] { NoSlots(ls[1..]); }
  }

  lemma JoinNumbers(parts: seq<seq<Lex>>, last: seq<Lex>, glue: string)
    ensures SlotNumbers(JoinLexes(parts + [last], glue)) == SlotNumbers(JoinLexes(parts, glue)) + SlotNumbers(last)
  {
    hide SlotNumbers;
    var all := parts + [last];
    if parts == [] {
      NoSlots([]);
      assert all[0] == last;
    } else {
      assert all[..|all| - 1] == parts && all[|all| - 1] == last;
      SlotNumbersConcat(JoinLexes(parts, glue) + [Plain(glue)], last);
      SlotNumbersConcat(JoinLexes(parts, glue), [Plain(glue)]);
      PlainNumbers(glue);
    }
  }

  lemma JoinSlotNumbers(operands: seq<Operand>, o: Operand)
    ensures SlotNumbers(JoinSlots(operands + [o])) == SlotNumbers(JoinSlots(operands)) + [o.n]
  {
    hide SlotNumbers;
    var all := operands + [o];
    OneSlot(Slot(o));
    if operands == [] {
      NoSlots([]);
      assert all == [o];
    } else {
      assert all[..|all| - 1] == operands && all[|all| - 1] == o;
      SlotNumbersConcat(JoinSlots(operands), [Plain(", "), Slot(o)]);
      SlotNumbersConcat([Plain(", ")], [Slot(o)]);
      PlainNumbers(", ");
      assert [Plain(", ")] + [Slot(o)] == [Plain(", "), Slot(o)];
    }
  }

  lemma {:induction false} ListNumbers(info: ColumnInfo, charset: string, constants: seq<FilterConstant>, i: nat,
                                       first: nat)
    requires i <= |constants| && TranslateList(info, charset, constants, i, first).Some?
    ensures SlotNumbers(JoinSlots(TranslateList(info, charset, constants, i, first).value.sql)) == Range(first, i)
  {
    hide SlotNumbers, OperandOf, JoinSlots;
    if i == 0 {
      EmptyJoin();
    } else {
      ListNumbers(info, charset, constants, i - 1, first);
      var left := TranslateList(info, charset, constants, i - 1, first).value;
      var bound := OperandOf(info, charset, InOp, constants[i - 1]).value;
      JoinSlotNumbers(left.sql, SlotFor(bound, first + i));
      RangeConcat(first, i - 1, 1);
      assert Range(first + (i - 1), 1) == [first + i];
    }
  }

  lemma EmptyJoin()
    ensures SlotNumbers(JoinSlots([])) == [] && forall glue :: SlotNumbers(JoinLexes([], glue)) == []
  {}

  /** The placeholders of a translated filter are numbered in the order of its text, from first + 1 on, one for
      each bind. */
  lemma {:induction false} TranslationNumbers(node: FilterNode, columns: seq<OracleColumn>, charset: string, first: nat)
    requires TranslateNode(node, columns, charset, first).Some?
    ensures var built := TranslateNode(node, columns, charset, first).value;
            SlotNumbers(Lexes(built.sql)) == Range(first, |built.binds|)
    decreases node, 0
  {
    hide SlotNumbers, TranslateLeaf, TranslateChildren, JoinLexes, Lexes;
    if node.op.AndOp? || node.op.OrOp? {
      var all := TranslateChildren(node, columns, charset, |node.children|, first).value;
      ChildrenNumbers(node, columns, charset, |node.children|, first);
      JunctionNumbers(node.op.AndOp?, all.sql);
    } else {
      LeafNumbers(node, columns, charset, first);
    }
  }

  lemma JunctionNumbers(isAnd: bool, children: seq<Cond>)
    requires children != []
    ensures SlotNumbers(Lexes(if |children| == 1 then Group(children[0]) else Junction(isAnd, children)))
         == SlotNumbers(JoinLexes(LexesOf(children), Glue(isAnd)))
  {
    hide SlotNumbers;
    JunctionLexes(isAnd, children);
    BracketedNumbers([Plain("(")], JoinLexes(LexesOf(children), Glue(isAnd)), ")");
    BracketedNumbers([Plain("(")], Lexes(children[0]), ")");
  }

  lemma {:induction false} ChildrenNumbers(node: FilterNode, columns: seq<OracleColumn>, charset: string, i: nat,
                                           first: nat)
    requires i <= |node.children| && TranslateChildren(node, columns, charset, i, first).Some?
    ensures var built := TranslateChildren(node, columns, charset, i, first).value;
            SlotNumbers(JoinLexes(LexesOf(built.sql), Glue(node.op.AndOp?))) == Range(first, |built.binds|)
    decreases node, 0, i
  {
    hide SlotNumbers, JoinLexes, Lexes, Glue, TranslateNode;
    if i == 0 {
      EmptyJoin();
      assert LexesOf([]) == [];
    } else {
      ChildrenNumbers(node, columns, charset, i - 1, first);
      var left := TranslateChildren(node, columns, charset, i - 1, first).value;
      var last := TranslateNode(node.children[i - 1], columns, charset, first + |left.binds|).value;
      TranslationNumbers(node.children[i - 1], columns, charset, first + |left.binds|);
      JoinNumbers(LexesOf(left.sql), Lexes(last.sql), Glue(node.op.AndOp?));
      assert LexesOf(left.sql + [last.sql]) == LexesOf(left.sql) + [Lexes(last.sql)];
      RangeConcat(first, |left.binds|, |last.binds|);
    }
  }

  lemma LeafNumbers(node: FilterNode, columns: seq<OracleColumn>, charset: string, first: nat)
    requires TranslateLeaf(node, columns, charset, first).Some?
    ensures var built := TranslateLeaf(node, columns, charset, first).value;
            SlotNumbers(Lexes(built.sql)) == Range(first, |built.binds|)
  {
    hide OperandOf, Classify, TranslateList, BindOfDate, CivilFromDays, DaysFromCivil, SlotNumbers, JoinSlots;
    var column := columns[node.column].name;
    match node.op
    case CompareOp(op) =>
      CompareNumbers(column, op, TranslateLeaf(node, columns, charset, first).value.sql.operand);
    case InOp =>
      ListNumbers(Classify(columns[node.column]), charset, node.constants, |node.constants|, first);
      BracketedNumbers([Plain("("), Name(column), Plain(" IN (")],
                       JoinSlots(TranslateLeaf(node, columns, charset, first).value.sql.operands), "))");
    case DateEqOp => RangeNumbers(column, first + 1, first + 2);
    case IsNullOp => NoSlots(Lexes(NullTest(column, true)));
    case IsNotNullOp => NoSlots(Lexes(NullTest(column, false)));
  }

  lemma CompareNumbers(column: string, op: Op, o: Operand)
    ensures SlotNumbers(Lexes(Compare(column, op, o))) == [o.n]
  {
    hide SlotNumbers, Symbol;
    var open := [Plain("("), Name(column), Plain(Symbol(op))];
    OneSlot(Slot(o));
    BracketedNumbers(open, [Slot(o)], ")");
    assert Lexes(Compare(column, op, o)) == open + [Slot(o)] + [Plain(")")];
  }

  lemma RangeNumbers(column: string, lo: nat, hi: nat)
    ensures SlotNumbers(Lexes(DayRange(column, lo, hi))) == [lo, hi]
  {
    hide SlotNumbers;
    var open, middle := [Plain("("), Name(column), Plain(" >= ")], [Plain(" AND "), Name(column), Plain(" < ")];
    var last := [Slot(Bind(hi))];
    OneSlot(Slot(Bind(lo)));
    OneSlot(Slot(Bind(hi)));
    NoSlots(open);
    NoSlots(middle);
    PlainNumbers(" + 1)");
    SlotNumbersConcat(open, [Slot(Bind(lo))]);
    SlotNumbersConcat(open + [Slot(Bind(lo))], middle);
    SlotNumbersConcat(open + [Slot(Bind(lo))] + middle, last);
    SlotNumbersConcat(open + [Slot(Bind(lo))] + middle + last, [Plain(" + 1)")]);
    assert Lexes(DayRange(column, lo, hi)) == open + [Slot(Bind(lo))] + middle + last + [Plain(" + 1)")];
  }

  /** A translated filter is a condition as the reader of conditions expects it. */
  lemma {:induction false} TranslationWellFormed(node: FilterNode, columns: seq<OracleColumn>, charset: string,
                                                 first: nat)
    requires TranslateNode(node, columns, charset, first).Some? && NamesFit(columns)
    ensures WellFormed(TranslateNode(node, columns, charset, first).value.sql)
    decreases node, 0
  {
    hide TranslateLeaf, TranslateChildren, NamesFit;
    if node.op.AndOp? || node.op.OrOp? {
      ChildrenWellFormed(node, columns, charset, |node.children|, first);
    } else {
      LeafWellFormed(node, columns, charset, first);
    }
  }

  lemma {:induction false} ChildrenWellFormed(node: FilterNode, columns: seq<OracleColumn>, charset: string, i: nat,
                                              first: nat)
    requires i <= |node.children| && TranslateChildren(node, columns, charset, i, first).Some? && NamesFit(columns)
    ensures forall c <- TranslateChildren(node, columns, charset, i, first).value.sql :: WellFormed(c)
    decreases node, 0, i
  {
    hide TranslateNode, NamesFit, WellFormed;
    if i > 0 {
      ChildrenWellFormed(node, columns, charset, i - 1, first);
      var left := TranslateChildren(node, columns, charset, i - 1, first).value;
      TranslationWellFormed(node.children[i - 1], columns, charset, first + |left.binds|);
    }
  }

  lemma LeafWellFormed(node: FilterNode, columns: seq<OracleColumn>, charset: string, first: nat)
    requires TranslateLeaf(node, columns, charset, first).Some? && NamesFit(columns)
    ensures WellFormed(TranslateLeaf(node, columns, charset, first).value.sql)
  {
    hide OperandOf, Classify, TranslateList, BindOfDate, CivilFromDays, DaysFromCivil;
    assert QuoteFree(columns[node.column].name);
  }

  function Shifted(built: Option<Built<Cond>>, k: nat): Option<Built<Cond>> {
    if built.None? then None else Some(Built(ShiftCond(built.value.sql, k), built.value.binds))
  }

  function ShiftAll(conds: seq<Cond>, k: nat): (r: seq<Cond>)
    ensures |r| == |conds| && forall i :: 0 <= i < |conds| ==> r[i] == ShiftCond(conds[i], k)
  {
    seq(|conds|, i requires 0 <= i < |conds| => ShiftCond(conds[i], k))
  }

  /** Translating after k more binds gives the same condition with its placeholders k further on. */
  lemma {:induction false} TranslationShift(node: FilterNode, columns: seq<OracleColumn>, charset: string, first: nat,
                                            k: nat)
    ensures TranslateNode(node, columns, charset, first + k) == Shifted(TranslateNode(node, columns, charset, first), k)
    decreases node, 0
  {
    hide TranslateLeaf, TranslateChildren;
    if node.op.AndOp? || node.op.OrOp? {
      ChildrenShift(node, columns, charset, |node.children|, first, k);
      var all := TranslateChildren(node, columns, charset, |node.children|, first);
      if node.children != [] && all.Some? { JunctionShift(node.op.AndOp?, all.value.sql, k); }
    } else {
      LeafShift(node, columns, charset, first, k);
    }
  }

  lemma JunctionShift(isAnd: bool, children: seq<Cond>, k: nat)
    ensures ShiftCond(Junction(isAnd, children), k) == Junction(isAnd, ShiftAll(children, k))
  {
    assert ShiftAll(children, k) == seq(|children|, i requires 0 <= i < |children| => ShiftCond(children[i], k));
  }

  lemma {:induction false} ChildrenShift(node: FilterNode, columns: seq<OracleColumn>, charset: string, i: nat,
                                         first: nat, k: nat)
    requires i <= |node.children|
    ensures var here, there := TranslateChildren(node, columns, charset, i, first),
                               TranslateChildren(node, columns, charset, i, first + k);
            && here.Some? == there.Some?
            && (here.Some? ==> there.value.sql == ShiftAll(here.value.sql, k) && there.value.binds == here.value.binds)
    decreases node, 0, i
  {
    hide TranslateNode, ShiftCond;
    if i > 0 {
      ChildrenShift(node, columns, charset, i - 1, first, k);
      var left := TranslateChildren(node, columns, charset, i - 1, first);
      if left.Some? {
        TranslationShift(node.children[i - 1], columns, charset, first + |left.value.binds|, k);
        assert first + k + |left.value.binds| == first + |left.value.binds| + k;
      }
    }
  }

  function ShiftOperands(operands: seq<Operand>, k: nat): (r: seq<Operand>)
    ensures |r| == |operands| && forall i :: 0 <= i < |operands| ==> r[i] == ShiftOperand(operands[i], k)
  {
    seq(|operands|, i requires 0 <= i < |operands| => ShiftOperand(operands[i], k))
  }

  lemma {:induction false} ListShift(info: ColumnInfo, charset: string, constants: seq<FilterConstant>, i: nat,
                                     first: nat, k: nat)
    requires i <= |constants|
    ensures var here, there := TranslateList(info, charset, constants, i, first),
                               TranslateList(info, charset, constants, i, first + k);
            && here.Some? == there.Some?
            && (here.Some? ==> && there.value.sql == ShiftOperands(here.value.sql, k)
                               && there.value.binds == here.value.binds)
  {
    hide OperandOf;
    if i > 0 { ListShift(info, charset, constants, i - 1, first, k); }
  }

  lemma InListShift(column: string, operands: seq<Operand>, k: nat)
    ensures ShiftCond(InList(column, operands), k) == InList(column, ShiftOperands(operands, k))
  {
    assert ShiftOperands(operands, k)
        == seq(|operands|, i requires 0 <= i < |operands| => ShiftOperand(operands[i], k));
  }

  lemma LeafShift(node: FilterNode, columns: seq<OracleColumn>, charset: string, first: nat, k: nat)
    ensures TranslateLeaf(node, columns, charset, first + k) == Shifted(TranslateLeaf(node, columns, charset, first), k)
  {
    hide OperandOf, Classify, TranslateList, BindOfDate, CivilFromDays, DaysFromCivil;
    if node.column < |columns| {
      var list := TranslateList(Classify(columns[node.column]), charset, node.constants, |node.constants|, first);
      ListShift(Classify(columns[node.column]), charset, node.constants, |node.constants|, first, k);
      if list.Some? { InListShift(columns[node.column].name, list.value.sql, k); }
    }
  }
}
