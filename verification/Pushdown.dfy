/** Which DuckDB filters are handed to Oracle, and that the query keeps its rows. */
module Pushdown {
  import opened NumberReading
  import opened OracleDate
  import opened SqlConditions
  import opened SqlParser
  import opened FilterValues
  import opened OracleColumns
  import opened OracleConditions
  import opened FilterSql
  import opened FilterSoundness
  import opened FilterNumbering
  import opened FilterBuilder
  import opened SameFragments

  /** An operand of an expression: a column of the scan, a constant of the column's type, a column cast to DATE,
      or anything else. */
  datatype Term = ColumnRef(column: nat) | Constant(k: FilterConstant) | CastToDate(column: nat) | OtherTerm(id: nat)

  datatype Expr =
    | Comparison(op: Op, left: Term, right: Term)
    | Between(input: Term, lower: Term, upper: Term, lowerInclusive: bool, upperInclusive: bool)
    | NullCheck(term: Term, isNull: bool)
    | InExpr(term: Term, list: seq<Term>)
    | Conjunction(isAnd: bool, children: seq<Expr>)
    | OtherExpr(id: nat)

  // What expressions mean; other terms and expressions mean anything

  datatype Others = Others(term: (nat, Row) -> Option<Value>, expr: (nat, Row) -> Truth)

  function TermValue(t: Term, row: Row, others: Others): Option<Value> {
    match t
    case ColumnRef(i) => if i < |row| then row[i] else None
    case Constant(k) => Some(ConstantValue(k))
    case CastToDate(i) =>
      if i < |row| && row[i].Some? && row[i].value.Time? then
        Some(Time(row[i].value.micros / MICROS_PER_DAY * MICROS_PER_DAY))
      else None
    case OtherTerm(id) => others.term(id, row)
  }

  function CompareTerms(op: Op, a: Option<Value>, b: Option<Value>): Truth {
    if a == None || b == None then Unknown
    else
      match Order(a.value, b.value)
      case None => Unknown
      case Some(order) => Of(Satisfies(op, order))
  }

  function InMeaning(v: Option<Value>, list: seq<Option<Value>>): Truth {
    if v == None then Unknown
    else if exists i :: 0 <= i < |list| && list[i].Some? && Order(v.value, list[i].value) == Some(0) then True
    else if None in list then Unknown
    else False
  }

  function ExprMeaning(e: Expr, row: Row, others: Others): Truth {
    match e
    case Comparison(op, left, right) => CompareTerms(op, TermValue(left, row, others), TermValue(right, row, others))
    case Between(input, lower, upper, lowerInclusive, upperInclusive) =>
      var value := TermValue(input, row, others);
      And([CompareTerms(if lowerInclusive then Ge else Gt, value, TermValue(lower, row, others)),
           CompareTerms(if upperInclusive then Le else Lt, value, TermValue(upper, row, others))])
    case NullCheck(term, isNull) => Of((TermValue(term, row, others) == None) == isNull)
    case InExpr(term, list) =>
      InMeaning(TermValue(term, row, others),
                seq(|list|, i requires 0 <= i < |list| => TermValue(list[i], row, others)))
    case Conjunction(isAnd, children) =>
      var truths := seq(|children|, i requires 0 <= i < |children| => ExprMeaning(children[i], row, others));
      if isAnd then And(truths) else Or(truths)
    case OtherExpr(id) => others.expr(id, row)
  }

  // From expressions to filters

  function Flip(op: Op): Op {
    match op
    case Lt => Gt
    case Le => Ge
    case Gt => Lt
    case Ge => Le
    case _ => op
  }

  function ColumnComparison(op: Op, column: Term, constant: Term): Option<FilterNode> {
    if column.ColumnRef? && constant.Constant? then
      Some(FilterNode(CompareOp(op), column.column, [constant.k], []))
    else None
  }

  function DateEquality(cast: Term, constant: Term): Option<FilterNode> {
    if cast.CastToDate? && constant.Constant? && constant.k.DateConstant? then
      Some(FilterNode(DateEqOp, cast.column, [constant.k], []))
    else None
  }

  function ConvertComparison(op: Op, left: Term, right: Term): Option<FilterNode> {
    var direct := ColumnComparison(op, left, right);
    if direct.Some? then direct
    else
      var flipped := ColumnComparison(Flip(op), right, left);
      if flipped.Some? then flipped
      else if op != Eq then None
      else
        var date := DateEquality(left, right);
        if date.Some? then date else DateEquality(right, left)
  }

  function ConvertBetween(input: Term, lower: Term, upper: Term, lowerInclusive: bool, upperInclusive: bool)
      : Option<FilterNode>
  {
    var low := ColumnComparison(if lowerInclusive then Ge else Gt, input, lower);
    var high := ColumnComparison(if upperInclusive then Le else Lt, input, upper);
    if low.None? || high.None? then None else Some(FilterNode(AndOp, 0, [], [low.value, high.value]))
  }

  function ConvertConstants(list: seq<Term>): (r: Option<seq<FilterConstant>>)
    ensures r.Some? ==> |r.value| == |list| && forall i :: 0 <= i < |list| ==> list[i] == Constant(r.value[i])
  {
    if list == [] then Some([])
    else
      var n := |list| - 1;
      var left := ConvertConstants(list[..n]);
      if left.None? || !list[n].Constant? then None else Some(left.value + [list[n].k])
  }

  function Convert(e: Expr): Option<FilterNode>
    decreases e, |if e.Conjunction? then e.children else []| + 1
  {
    match e
    case Comparison(op, left, right) => ConvertComparison(op, left, right)
    case Between(input, lower, upper, lowerInclusive, upperInclusive) =>
      ConvertBetween(input, lower, upper, lowerInclusive, upperInclusive)
    case NullCheck(term, isNull) =>
      if term.ColumnRef? then Some(FilterNode(if isNull then IsNullOp else IsNotNullOp, term.column, [], [])) else None
    case InExpr(term, list) =>
      var constants := ConvertConstants(list);
      if list == [] || !term.ColumnRef? || constants.None? then None
      else Some(FilterNode(InOp, term.column, constants.value, []))
    case Conjunction(isAnd, children) =>
      var nodes := ConvertChildren(e, |children|);
      if children == [] || nodes.None? then None
      else Some(FilterNode(if isAnd then AndOp else OrOp, 0, [], nodes.value))
    case OtherExpr(_) => None
  }

  function ConvertChildren(e: Expr, i: nat): (r: Option<seq<FilterNode>>)
    requires e.Conjunction? && i <= |e.children|
    ensures r.Some? ==> |r.value| == i
    decreases e, i
  {
    if i == 0 then Some([])
    else
      var left := ConvertChildren(e, i - 1);
      var last := Convert(e.children[i - 1]);
      if left.None? || last.None? then None else Some(left.value + [last.value])
  }

  // Conversions keep the meaning

  lemma {:induction false} TextOrderFlips(a: string, b: string)
    ensures TextOrder(a, b) == 0 - TextOrder(b, a)
  {
    if a != "" && b != "" && a[0] == b[0] { TextOrderFlips(a[1..], b[1..]); }
  }

  lemma OrderFlips(a: Value, b: Value)
    ensures Order(a, b).Some? == Order(b, a).Some?
    ensures Order(a, b).Some? ==> Order(a, b).value == 0 - Order(b, a).value
  {
    hide TextOrder, Units;
    if a.Str? && b.Str? { TextOrderFlips(a.text, b.text); }
  }

  /** A comparison keeps its truth value when its sides are swapped and its operator is flipped. */
  lemma FlipSound(op: Op, a: Option<Value>, b: Option<Value>)
    ensures CompareTerms(op, a, b) == CompareTerms(Flip(op), b, a)
  {
    hide Order;
    if a.Some? && b.Some? { OrderFlips(a.value, b.value); }
  }

  lemma ColumnComparisonSound(op: Op, column: Term, constant: Term, row: Row, others: Others)
    requires ColumnComparison(op, column, constant).Some? && column.column < |row|
    ensures FilterSql.Meaning(ColumnComparison(op, column, constant).value, row)
         == CompareTerms(op, TermValue(column, row, others), TermValue(constant, row, others))
  {
    hide Order, ConstantValue;
  }

  lemma DateEqualitySound(cast: Term, constant: Term, row: Row, others: Others)
    requires DateEquality(cast, constant).Some? && cast.column < |row|
    ensures FilterSql.Meaning(DateEquality(cast, constant).value, row)
         == CompareTerms(Eq, TermValue(cast, row, others), TermValue(constant, row, others))
  {
    if row[cast.column].Some? && row[cast.column].value.Time? {
      var day, d := row[cast.column].value.micros / MICROS_PER_DAY, constant.k.days;
      assert day * MICROS_PER_DAY == d * MICROS_PER_DAY <==> day == d;
    }
  }

  /** The columns an expression refers to. */
  predicate TermIn(t: Term, n: nat) {
    (t.ColumnRef? || t.CastToDate?) ==> t.column < n
  }

  ghost predicate ColumnsIn(e: Expr, n: nat) {
    match e
    case Comparison(_, left, right) => TermIn(left, n) && TermIn(right, n)
    case Between(input, lower, upper, _, _) => TermIn(input, n) && TermIn(lower, n) && TermIn(upper, n)
    case NullCheck(term, _) => TermIn(term, n)
    case InExpr(term, list) => TermIn(term, n) && forall i :: 0 <= i < |list| ==> TermIn(list[i], n)
    case Conjunction(_, children) => forall i :: 0 <= i < |children| ==> ColumnsIn(children[i], n)
    case OtherExpr(_) => true
  }

  lemma ComparisonSound(op: Op, left: Term, right: Term, row: Row, others: Others)
    requires ConvertComparison(op, left, right).Some? && TermIn(left, |row|) && TermIn(right, |row|)
    ensures FilterSql.Meaning(ConvertComparison(op, left, right).value, row)
         == CompareTerms(op, TermValue(left, row, others), TermValue(right, row, others))
  {
    hide FilterSql.Meaning, CompareTerms, TermValue;
    var l, r := TermValue(left, row, others), TermValue(right, row, others);
    if ColumnComparison(op, left, right).Some? {
      ColumnComparisonSound(op, left, right, row, others);
    } else if ColumnComparison(Flip(op), right, left).Some? {
      ColumnComparisonSound(Flip(op), right, left, row, others);
      FlipSound(op, l, r);
    } else if DateEquality(left, right).Some? {
      DateEqualitySound(left, right, row, others);
    } else {
      DateEqualitySound(right, left, row, others);
      FlipSound(op, l, r);
    }
  }

  lemma InSound(column: nat, constants: seq<FilterConstant>, list: seq<Term>, row: Row, others: Others)
    requires column < |row| && |constants| == |list|
    requires forall i :: 0 <= i < |list| ==> list[i] == Constant(constants[i])
    ensures FilterSql.Meaning(FilterNode(InOp, column, constants, []), row)
         == ExprMeaning(InExpr(ColumnRef(column), list), row, others)
  {
    hide Order, ConstantValue;
    var values := seq(|list|, i requires 0 <= i < |list| => TermValue(list[i], row, others));
    assert forall i :: 0 <= i < |list| ==> values[i] == Some(ConstantValue(constants[i]));
    assert None !in values;
    if row[column].Some? {
      var v := row[column].value;
      if k :| k in constants && Order(v, ConstantValue(k)) == Some(0) {
        var i :| 0 <= i < |constants| && constants[i] == k;
        assert values[i].Some? && Order(v, values[i].value) == Some(0);
      }
    }
  }

  lemma {:induction false} ChildConverted(e: Expr, i: nat, j: nat)
    requires e.Conjunction? && j < i <= |e.children| && ConvertChildren(e, i).Some?
    ensures Convert(e.children[j]) == Some(ConvertChildren(e, i).value[j])
    decreases i
  {
    hide Convert;
    if j < i - 1 { ChildConverted(e, i - 1, j); }
  }

  /** An expression that becomes a filter means the same as the filter. */
  lemma {:induction false} ConvertSound(e: Expr, row: Row, others: Others)
    requires Convert(e).Some? && ColumnsIn(e, |row|)
    ensures FilterSql.Meaning(Convert(e).value, row) == ExprMeaning(e, row, others)
    decreases e
  {
    hide FilterSql.Meaning, ConvertComparison, CompareTerms, TermValue, ConvertChildren, InMeaning;
    match e
    case Comparison(op, left, right) => ComparisonSound(op, left, right, row, others);
    case Between(input, lower, upper, lowerInclusive, upperInclusive) => BetweenSound(e, row, others);
    case NullCheck(term, isNull) => NullCheckSound(term.column, isNull, row, others);
    case InExpr(term, list) => InSound(term.column, ConvertConstants(list).value, list, row, others);
    case Conjunction(isAnd, children) =>
      var nodes := ConvertChildren(e, |children|).value;
      var truths := seq(|children|, i requires 0 <= i < |children| => ExprMeaning(children[i], row, others));
      forall i | 0 <= i < |children|
        ensures truths[i] == FilterSql.Meaning(nodes[i], row)
      {
        ChildConverted(e, |children|, i);
        ConvertSound(children[i], row, others);
      }
      NodeMeaning(Convert(e).value, truths, row);
  }

  lemma NullCheckSound(column: nat, isNull: bool, row: Row, others: Others)
    requires column < |row|
    ensures FilterSql.Meaning(FilterNode(if isNull then IsNullOp else IsNotNullOp, column, [], []), row)
         == Of((TermValue(ColumnRef(column), row, others) == None) == isNull)
  {}

  lemma BetweenSound(e: Expr, row: Row, others: Others)
    requires e.Between? && Convert(e).Some? && ColumnsIn(e, |row|)
    ensures FilterSql.Meaning(Convert(e).value, row) == ExprMeaning(e, row, others)
  {
    hide FilterSql.Meaning, CompareTerms, TermValue;
    var lower, upper := if e.lowerInclusive then Ge else Gt, if e.upperInclusive then Le else Lt;
    var node := Convert(e).value;
    ColumnComparisonSound(lower, e.input, e.lower, row, others);
    ColumnComparisonSound(upper, e.input, e.upper, row, others);
    var truths := [CompareTerms(lower, TermValue(e.input, row, others), TermValue(e.lower, row, others)),
                   CompareTerms(upper, TermValue(e.input, row, others), TermValue(e.upper, row, others))];
    NodeMeaning(node, truths, row);
  }

  /** Constants as DuckDB hands them over. */
  ghost predicate TermFits(t: Term, value: string -> Double) {
    t.Constant? ==> ConstantFits(t.k) && ConstantShown(t.k, value)
  }

  ghost predicate ExprFits(e: Expr, value: string -> Double) {
    match e
    case Comparison(_, left, right) => TermFits(left, value) && TermFits(right, value)
    case Between(_, lower, upper, _, _) => TermFits(lower, value) && TermFits(upper, value)
    case NullCheck(_, _) => true
    case InExpr(_, list) => forall i :: 0 <= i < |list| ==> TermFits(list[i], value)
    case Conjunction(_, children) => forall i :: 0 <= i < |children| ==> ExprFits(children[i], value)
    case OtherExpr(_) => true
  }

  lemma {:induction false} ConvertFits(e: Expr, value: string -> Double)
    requires Convert(e).Some? && ExprFits(e, value)
    ensures NodeFits(Convert(e).value) && NodeShown(Convert(e).value, value)
    decreases e
  {
    hide ConstantFits, ConstantShown, ConvertChildren;
    match e
    case Conjunction(_, children) =>
      forall i | 0 <= i < |children|
        ensures NodeFits(Convert(e).value.children[i]) && NodeShown(Convert(e).value.children[i], value)
      {
        ChildConverted(e, |children|, i);
        ConvertFits(children[i], value);
      }
    case InExpr(_, list) =>
      forall i | 0 <= i < |list|
        ensures ConstantFits(Convert(e).value.constants[i]) && ConstantShown(Convert(e).value.constants[i], value)
      {
        assert TermFits(list[i], value);
      }
    case _ =>
  }

  // The pushdown

  /** A fragment that came from a filter. */
  ghost predicate Known(f: Fragment, columns: seq<OracleColumn>, charset: string, value: string -> Double) {
    exists node: FilterNode :: FragmentOf(node, columns, charset) == Some(f) && NodeFits(node) && NodeShown(node, value)
  }

  /** The rows that Oracle keeps for a fragment. */
  ghost predicate FragmentTrue(f: Fragment, columns: seq<OracleColumn>, charset: string, other: Database,
                               row: StoredRow)
    requires |row| == |columns|
  {
    Parse(f.sql).Some? && Eval(Parse(f.sql).value, f.binds, columns, charset, other, row) == True
  }

  /** The rows of the query: true for every fragment in Oracle and for every filter left in DuckDB. */
  ghost predicate Selects(fragments: seq<Fragment>, filters: seq<Expr>, columns: seq<OracleColumn>, charset: string,
                          other: Database, row: StoredRow, others: Others)
    requires |row| == |columns|
  {
    && (forall f <- fragments :: FragmentTrue(f, columns, charset, other, row))
    && (forall e <- filters :: ExprMeaning(e, ReadRow(columns, other, row), others) == True)
  }

  /** Whatever the table holds, the query keeps the same rows with the one as with the other division of its filters. */
  ghost predicate SameRows(fragments: seq<Fragment>, filters: seq<Expr>, otherFragments: seq<Fragment>,
                           otherFilters: seq<Expr>, columns: seq<OracleColumn>, charset: string)
  {
    forall other: Database, row: StoredRow, others: Others :: |row| == |columns| && RowStored(columns, row) ==>
      (Selects(fragments, filters, columns, charset, other, row, others)
       <==> Selects(otherFragments, otherFilters, columns, charset, other, row, others))
  }

  /** A fragment is true for a row exactly if the expression it came from is. */
  lemma FragmentSound(e: Expr, columns: seq<OracleColumn>, charset: string, other: Database, row: StoredRow,
                      others: Others, value: string -> Double)
    requires Convert(e).Some? && FragmentOf(Convert(e).value, columns, charset).Some?
    requires RowStored(columns, row) && NamesFit(columns) && ColumnsIn(e, |columns|) && ExprFits(e, value)
    ensures |row| == |columns|
    ensures FragmentTrue(FragmentOf(Convert(e).value, columns, charset).value, columns, charset, other, row)
       <==> ExprMeaning(e, ReadRow(columns, other, row), others) == True
  {
    hide Convert, FragmentOf, TranslateNode, Parse, Eval, ExprMeaning, FilterSql.Meaning, RowStored, NamesFit,
         ColumnsIn, ExprFits, NodeFits, NodeShown;
    var node := Convert(e).value;
    var f := FragmentOf(node, columns, charset).value;
    RowLength(columns, row);
    ConvertFits(e, value);
    FragmentReads(node, columns, charset);
    assert Placed(f.binds, 0, f.binds);
    TranslationSound(node, columns, charset, 0, f.binds, other, row);
    ConvertSound(e, ReadRow(columns, other, row), others);
  }

  lemma FragmentReads(node: FilterNode, columns: seq<OracleColumn>, charset: string)
    requires FragmentOf(node, columns, charset).Some? && NamesFit(columns)
    ensures var f, built := FragmentOf(node, columns, charset).value, TranslateNode(node, columns, charset, 0);
            built.Some? && built.value.binds == f.binds && Parse(f.sql) == Some(built.value.sql)
  {
    hide Text, Display, TranslateNode, Parse, NamesFit;
    TranslationWellFormed(node, columns, charset, 0);
    TextParses(TranslateNode(node, columns, charset, 0).value.sql);
  }

  predicate SameFragment(a: Fragment, b: Fragment) {
    a.sql == b.sql && a.display == b.display
  }

  /** Oracle can apply the filter. */
  predicate Pushable(e: Expr, columns: seq<OracleColumn>, charset: string) {
    Convert(e).Some? && FragmentOf(Convert(e).value, columns, charset).Some?
  }

  /** The filters left to DuckDB, in their order. */
  function Kept(exprs: seq<Expr>, columns: seq<OracleColumn>, charset: string): seq<Expr> {
    if exprs == [] then []
    else (if Pushable(exprs[0], columns, charset) then [] else [exprs[0]]) + Kept(exprs[1..], columns, charset)
  }

  /** One filter more has been looked at. */
  lemma KeptStep(exprs: seq<Expr>, i: nat, columns: seq<OracleColumn>, charset: string)
    requires i < |exprs|
    ensures var (e, rest) := (exprs[i], Kept(exprs[i + 1..], columns, charset));
            exprs[..i] + Kept(exprs[i..], columns, charset)
            == if Pushable(e, columns, charset) then exprs[..i] + rest else exprs[..i + 1] + rest
    ensures Pushable(exprs[i], columns, charset)
       <==> Convert(exprs[i]).Some? && FragmentOf(Convert(exprs[i]).value, columns, charset).Some?
  {
    hide Convert, FragmentOf;
    assert exprs[i..][1..] == exprs[i + 1..];
    assert exprs[..i + 1] == exprs[..i] + [exprs[i]];
  }

  lemma KeptNone(exprs: seq<Expr>, columns: seq<OracleColumn>, charset: string)
    requires exprs == []
    ensures Kept(exprs, columns, charset) == []
  {}

  class ScanBind {
    const columns: seq<OracleColumn>
    const charset: string
    var filters: seq<Fragment>

    constructor (columns: seq<OracleColumn>, charset: string)
      ensures this.columns == columns && this.charset == charset && filters == []
    {
      this.columns, this.charset, filters := columns, charset, [];
    }

    /** Hands filters over to Oracle where it can apply them, and keeps the others. The query selects the same rows
        before and after, also when a later pass hands over a filter already pushed. */
    method PushdownComplexFilter(exprs: seq<Expr>, ghost value: string -> Double) returns (remaining: seq<Expr>)
      requires NamesFit(columns) && forall e <- exprs :: ColumnsIn(e, |columns|) && ExprFits(e, value)
      requires forall f <- filters :: Known(f, columns, charset, value)
      modifies this
      ensures forall f <- filters :: Known(f, columns, charset, value)
      ensures SameRows(filters, remaining, old(filters), exprs, columns, charset)
      ensures remaining == Kept(exprs, columns, charset)
      ensures old(filters) <= filters
      ensures forall i, j :: 0 <= i < j < |filters| && j >= |old(filters)| ==> !SameFragment(filters[i], filters[j])
    {
      hide Convert, FragmentOf, Known, SameRows, NamesFit, ColumnsIn, ExprFits, Pushable, Kept;
      remaining := exprs;
      var i := 0;
      SameAtFirst(filters, exprs, columns, charset);
      while i < |remaining|
        invariant 0 <= i <= |remaining|
        invariant Kept(exprs, columns, charset) == remaining[..i] + Kept(remaining[i..], columns, charset)
        invariant forall e <- remaining :: e in exprs
        invariant old(filters) <= filters
        invariant forall i, j :: 0 <= i < j < |filters| && j >= |old(filters)| ==> !SameFragment(filters[i], filters[j])
        invariant forall f <- filters :: Known(f, columns, charset, value)
        invariant SameRows(filters, remaining, old(filters), exprs, columns, charset)
        decreases |remaining| - i
      {
        var e := remaining[i];
        var node := Convert(e);
        if node.None? {
          KeptStep(remaining, i, columns, charset);
          i := i + 1;
          continue;
        }
        var fragment := TranslateFilter(node.value, columns, charset);
        if fragment.None? {
          KeptStep(remaining, i, columns, charset);
          i := i + 1;
          continue;
        }
        // Equal texts mean equal fragments here, so nothing is lost by not adding one twice.
        var known := exists f :: f in filters && SameFragment(f, fragment.value);
        ghost var before, all := filters, remaining;
        if !known {
          filters := filters + [fragment.value];
        }
        remaining := remaining[..i] + remaining[i + 1..];
        MakeKnown(e, columns, charset, value);
        if known { KnownAlready(e, before, columns, charset, value); }
        PushSame(e, i, before, filters, all, old(filters), exprs, columns, charset, value);
        KeptStep(all, i, columns, charset);
        assert remaining[..i] == all[..i] && remaining[i..] == all[i + 1..];
      }
      assert remaining[..i] == remaining;
      KeptNone(remaining[i..], columns, charset);
    }
  }

  lemma SameAtFirst(fragments: seq<Fragment>, filters: seq<Expr>, columns: seq<OracleColumn>, charset: string)
    ensures SameRows(fragments, filters, fragments, filters, columns, charset)
  {}

  /** Moving one filter over selects the same rows. */
  lemma PushSame(e: Expr, i: nat, before: seq<Fragment>, after: seq<Fragment>, all: seq<Expr>, first: seq<Fragment>,
                 exprs: seq<Expr>, columns: seq<OracleColumn>, charset: string, value: string -> Double)
    requires i < |all| && all[i] == e && SameRows(before, all, first, exprs, columns, charset)
    requires Convert(e).Some? && FragmentOf(Convert(e).value, columns, charset).Some?
    requires NamesFit(columns) && ColumnsIn(e, |columns|) && ExprFits(e, value)
    requires var f := FragmentOf(Convert(e).value, columns, charset).value;
             after == before + [f] || (after == before && f in before)
    ensures SameRows(after, all[..i] + all[i + 1..], first, exprs, columns, charset)
  {
    hide Convert, FragmentOf, Selects, FragmentTrue, RowStored, ReadRow, NamesFit, ColumnsIn, ExprFits, ExprMeaning;
    forall other: Database, row: StoredRow, others: Others | |row| == |columns| && RowStored(columns, row)
      ensures Selects(after, all[..i] + all[i + 1..], columns, charset, other, row, others)
         <==> Selects(first, exprs, columns, charset, other, row, others)
    {
      FragmentSound(e, columns, charset, other, row, others, value);
      PushOne(e, i, before, after, all, columns, charset, other, row, others);
    }
  }

  lemma MakeKnown(e: Expr, columns: seq<OracleColumn>, charset: string, value: string -> Double)
    requires Convert(e).Some? && FragmentOf(Convert(e).value, columns, charset).Some? && ExprFits(e, value)
    ensures Known(FragmentOf(Convert(e).value, columns, charset).value, columns, charset, value)
  {
    hide Convert, FragmentOf, NodeFits, NodeShown, ExprFits;
    ConvertFits(e, value);
  }

  /** A known fragment with the same texts is the same fragment. */
  lemma KnownAlready(e: Expr, fragments: seq<Fragment>, columns: seq<OracleColumn>, charset: string,
                     value: string -> Double)
    requires Convert(e).Some? && FragmentOf(Convert(e).value, columns, charset).Some? && ExprFits(e, value)
    requires NamesFit(columns) && forall f <- fragments :: Known(f, columns, charset, value)
    requires var pushed := FragmentOf(Convert(e).value, columns, charset).value;
             exists f :: f in fragments && SameFragment(f, pushed)
    ensures FragmentOf(Convert(e).value, columns, charset).value in fragments
  {
    hide Convert, FragmentOf, NodeFits, NodeShown, ExprFits, NamesFit, TranslateNode;
    var node := Convert(e).value;
    var pushed := FragmentOf(node, columns, charset).value;
    var f :| f in fragments && f.sql == pushed.sql && f.display == pushed.display;
    assert Known(f, columns, charset, value);
    var n: FilterNode :| FragmentOf(n, columns, charset) == Some(f) && NodeFits(n) && NodeShown(n, value);
    ConvertFits(e, value);
    SameFragmentSameBinds(n, node, columns, charset, value);
  }

  /** Moving one filter over keeps the rows. */
  lemma PushOne(e: Expr, i: nat, before: seq<Fragment>, after: seq<Fragment>, exprs: seq<Expr>,
                columns: seq<OracleColumn>, charset: string, other: Database, row: StoredRow, others: Others)
    requires |row| == |columns| && i < |exprs| && exprs[i] == e
    requires Convert(e).Some? && FragmentOf(Convert(e).value, columns, charset).Some?
    requires var f := FragmentOf(Convert(e).value, columns, charset).value;
             && (after == before + [f] || (after == before && f in before))
             && (FragmentTrue(f, columns, charset, other, row)
                 <==> ExprMeaning(e, ReadRow(columns, other, row), others) == True)
    ensures Selects(after, exprs[..i] + exprs[i + 1..], columns, charset, other, row, others)
       <==> Selects(before, exprs, columns, charset, other, row, others)
  {
    hide Convert, FragmentOf, FragmentTrue, ExprMeaning;
    assert exprs == exprs[..i] + [e] + exprs[i + 1..];
  }
}
