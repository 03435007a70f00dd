/** The statement of one work unit: its text, its binds, and the rows it selects. */
module ReadSql {
  import opened Machine
  import opened NumberReading
  import opened NumberBinds
  import opened Numerals
  import opened SqlTokens
  import opened SqlConditions
  import opened SqlParser
  import opened OracleColumns
  import opened OracleConditions
  import opened FilterValues
  import opened FilterSql
  import opened FilterSoundness
  import opened FilterNumbering
  import opened FilterBuilder

  datatype SliceKind =
    | Whole
    | RowidRange(lo: string, hi: string, inclusive: bool)
    | Hash(buckets: uint32, bucket: uint32)

  /** The expression that a column is selected by: its name, its instant in UTC, for types with a time zone and with the
      local one, or its text, for ROWID and UROWID. */
  datatype SelectExpr =
    | PlainColumn(name: string)
    | ZonedUtc(name: string)
    | LocalUtc(name: string)
    | RowidChars(name: string)
    | UrowidChars(name: string)

  datatype ScanInput = ScanInput(
    owner: string,
    table: string,
    columns: seq<SelectExpr>,
    filters: seq<Fragment>,
    snapshotScn: string)

  datatype Statement = Statement(sql: string, binds: seq<BindValue>)

  function TextBind(value: string): BindValue {
    BindValue(TextData(value), SqlStringLiteral(value))
  }

  function Place(n: nat): string {
    ":b" + Decimal(n)
  }

  // The parts of the statement

  function SelectText(e: SelectExpr): string {
    match e
    case PlainColumn(name) => Quoted(name)
    case ZonedUtc(name) => "SYS_EXTRACT_UTC(" + Quoted(name) + ")"
    case LocalUtc(name) => "SYS_EXTRACT_UTC(CAST(" + Quoted(name) + " AS TIMESTAMP WITH TIME ZONE))"
    case RowidChars(name) => "ROWIDTOCHAR(" + Quoted(name) + ")"
    case UrowidChars(name) => "CAST(" + Quoted(name) + " AS VARCHAR2(4000))"
  }

  function SelectList(columns: seq<SelectExpr>): string {
    if columns == [] then ""
    else
      var n := |columns| - 1;
      SelectList(columns[..n]) + (if n > 0 then ", " else "") + SelectText(columns[n])
  }

  function Head(input: ScanInput): string {
    "SELECT /* oraduck_scan */ " + (if input.columns == [] then "1" else SelectList(input.columns))
    + " FROM " + Quoted(input.owner) + "." + Quoted(input.table)
    + if input.snapshotScn == "" then "" else " AS OF SCN TO_NUMBER(" + Place(1) + ")"
  }

  function SnapshotBinds(input: ScanInput): seq<BindValue> {
    if input.snapshotScn == "" then [] else [TextBind(input.snapshotScn)]
  }

  function FilterBinds(filters: seq<Fragment>): seq<BindValue> {
    if filters == [] then [] else FilterBinds(filters[..|filters| - 1]) + filters[|filters| - 1].binds
  }

  /** The filters' texts, each numbered on from the binds before it. */
  function FilterConditions(filters: seq<Fragment>, first: nat): (r: seq<string>)
    ensures |r| == |filters|
  {
    if filters == [] then []
    else
      var n := |filters| - 1;
      FilterConditions(filters[..n], first) + [Shift(filters[n].sql, first + |FilterBinds(filters[..n])|)]
  }

  function SliceConditions(slice: SliceKind, n: nat): seq<string> {
    match slice
    case Whole => []
    case RowidRange(_, _, inclusive) =>
      if inclusive then ["ROWID BETWEEN CHARTOROWID(" + Place(n + 1) + ") AND CHARTOROWID(" + Place(n + 2) + ")"]
      else ["ROWID >= CHARTOROWID(" + Place(n + 1) + ") AND ROWID < CHARTOROWID(" + Place(n + 2) + ")"]
    case Hash(_, _) => ["ORA_HASH(ROWID, " + Place(n + 1) + ") = " + Place(n + 2)]
  }

  function NumberBindValue(v: int): BindValue {
    BindOfNumber(v, 0)
  }

  function SliceBinds(slice: SliceKind): seq<BindValue> {
    match slice
    case Whole => []
    case RowidRange(lo, hi, _) => [TextBind(lo), TextBind(hi)]
    case Hash(buckets, bucket) => [NumberBindValue((buckets as int) - 1), NumberBindValue(bucket)]
  }

  function WhereText(conditions: seq<string>): string {
    if conditions == [] then ""
    else
      var n := |conditions| - 1;
      WhereText(conditions[..n]) + (if n == 0 then " WHERE " else " AND ") + conditions[n]
  }

  function StatementOf(input: ScanInput, slice: SliceKind): Statement {
    var first := SnapshotBinds(input);
    var binds := first + FilterBinds(input.filters);
    Statement(Head(input) + WhereText(FilterConditions(input.filters, |first|) + SliceConditions(slice, |binds|)),
              binds + SliceBinds(slice))
  }

  lemma SelectListStep(columns: seq<SelectExpr>, i: nat)
    requires i < |columns|
    ensures SelectList(columns[..i + 1])
         == SelectList(columns[..i]) + (if i > 0 then ", " else "") + SelectText(columns[i])
  {
    assert columns[..i + 1][..i] == columns[..i];
  }

  lemma FilterStep(filters: seq<Fragment>, i: nat, first: nat)
    requires i < |filters|
    ensures FilterBinds(filters[..i + 1]) == FilterBinds(filters[..i]) + filters[i].binds
    ensures FilterConditions(filters[..i + 1], first)
         == FilterConditions(filters[..i], first) + [Shift(filters[i].sql, first + |FilterBinds(filters[..i])|)]
  {
    hide Shift;
    assert filters[..i + 1][..i] == filters[..i];
  }

  lemma WhereStep(conditions: seq<string>, i: nat)
    requires i < |conditions|
    ensures WhereText(conditions[..i + 1])
         == WhereText(conditions[..i]) + (if i == 0 then " WHERE " else " AND ") + conditions[i]
  {
    assert conditions[..i + 1][..i] == conditions[..i];
  }

  /** SELECT, FROM and AS OF */
  method BuildHead(input: ScanInput) returns (sql: string, binds: seq<BindValue>)
    ensures sql == Head(input) && binds == SnapshotBinds(input)
  {
    hide SelectList, Decimal, SqlStringLiteral, Quoted, Head;
    sql, binds := "SELECT /* oraduck_scan */ ", [];
    if input.columns == [] {
      sql := sql + "1";
    }
    var list := SelectAll(input.columns);
    sql := sql + list + " FROM " + Quoted(input.owner) + "." + Quoted(input.table);
    if input.snapshotScn != "" {
      sql := sql + " AS OF SCN TO_NUMBER(" + Place(|binds| + 1) + ")";
      binds := binds + [TextBind(input.snapshotScn)];
    }
    HeadIs(input, sql, list);
  }

  method SelectAll(columns: seq<SelectExpr>) returns (list: string)
    ensures list == SelectList(columns)
  {
    hide SelectList, SelectText;
    list := "";
    var i := 0;
    NothingSelected();
    assert columns[..0] == [];
    while i < |columns|
      invariant 0 <= i <= |columns| && list == SelectList(columns[..i])
    {
      SelectListStep(columns, i);
      list := list + (if i > 0 then ", " else "") + SelectText(columns[i]);
      i := i + 1;
    }
    assert columns[..i] == columns;
  }

  /** The filters as conditions, their binds behind the ones there are. */
  method AddFilters(filters: seq<Fragment>, first: seq<BindValue>)
      returns (conditions: seq<string>, binds: seq<BindValue>)
    ensures conditions == FilterConditions(filters, |first|) && binds == first + FilterBinds(filters)
  {
    hide FilterBinds, FilterConditions, Shift;
    conditions, binds := [], first;
    var i := 0;
    NothingSelected();
    assert filters[..0] == [] && first + [] == first;
    while i < |filters|
      invariant 0 <= i <= |filters|
      invariant binds == first + FilterBinds(filters[..i])
      invariant conditions == FilterConditions(filters[..i], |first|)
    {
      FilterStep(filters, i, |first|);
      var condition := ShiftPlaceholders(filters[i].sql, |binds|);
      conditions := conditions + [condition];
      binds := binds + filters[i].binds;
      i := i + 1;
    }
    assert filters[..i] == filters;
  }

  /** The slice of the unit as a condition. */
  method AddSlice(slice: SliceKind, first: seq<BindValue>) returns (conditions: seq<string>, binds: seq<BindValue>)
    ensures conditions == SliceConditions(slice, |first|) && binds == first + SliceBinds(slice)
  {
    hide BindOf, SqlStringLiteral, Decimal;
    conditions, binds := [], first;
    match slice
    case Whole =>
    case RowidRange(lo, hi, inclusive) =>
      var loPlace := Place(|binds| + 1);
      binds := binds + [TextBind(lo)];
      var hiPlace := Place(|binds| + 1);
      binds := binds + [TextBind(hi)];
      if inclusive {
        conditions := ["ROWID BETWEEN CHARTOROWID(" + loPlace + ") AND CHARTOROWID(" + hiPlace + ")"];
      } else {
        conditions := ["ROWID >= CHARTOROWID(" + loPlace + ") AND ROWID < CHARTOROWID(" + hiPlace + ")"];
      }
    case Hash(buckets, bucket) =>
      var bucketsPlace := Place(|binds| + 1);
      var number := BindNumber((buckets as int) - 1);
      binds := binds + [BindValue(NumberData(number.bytes), number.display)];
      var bucketPlace := Place(|binds| + 1);
      number := BindNumber(bucket);
      binds := binds + [BindValue(NumberData(number.bytes), number.display)];
      conditions := ["ORA_HASH(ROWID, " + bucketsPlace + ") = " + bucketPlace];
  }

  method BuildScanSql(input: ScanInput, slice: SliceKind) returns (stmt: Statement)
    ensures stmt == StatementOf(input, slice)
  {
    hide FilterBinds, FilterConditions, WhereText, Head, SliceConditions, SliceBinds, SnapshotBinds;
    var sql, first := BuildHead(input);
    var conditions, binds := AddFilters(input.filters, first);
    var sliced, all := AddSlice(slice, binds);
    conditions, binds := conditions + sliced, all;
    ghost var head := sql;
    var i := 0;
    NoWhere();
    assert conditions[..0] == [] && head + "" == head;
    while i < |conditions|
      invariant 0 <= i <= |conditions| && sql == head + WhereText(conditions[..i])
    {
      WhereStep(conditions, i);
      sql := sql + (if i == 0 then " WHERE " else " AND ") + conditions[i];
      i := i + 1;
    }
    assert conditions[..i] == conditions;
    return Statement(sql, binds);
  }

  lemma NothingSelected()
    ensures SelectList([]) == "" && FilterBinds([]) == [] && forall n :: FilterConditions([], n) == []
  {}

  lemma NoWhere()
    ensures WhereText([]) == ""
  {}

  lemma HeadIs(input: ScanInput, sql: string, list: string)
    requires list == SelectList(input.columns)
    requires sql == "SELECT /* oraduck_scan */ " + (if input.columns == [] then "1" else "") + list + " FROM "
                    + Quoted(input.owner) + "." + Quoted(input.table)
                    + if input.snapshotScn == "" then "" else " AS OF SCN TO_NUMBER(" + Place(1) + ")"
    ensures sql == Head(input)
  {
    hide Quoted, Place;
  }

  // Placeholders of the whole statement

  const NONE: seq<nat> := []

  /** A text that ends outside quotes and has these placeholders. */
  ghost predicate Fits(s: string, numbers: seq<nat>) {
    EndQuote(s, None) == None && Placeholders(s) == numbers
  }

  predicate SafeStart(s: string) {
    s != "" && s[0] != 'b' && !IsDigit(s[0])
  }

  lemma FitsConcat(s: string, m: seq<nat>, t: string, n: seq<nat>)
    requires Fits(s, m) && Fits(t, n) && Joinable(s, t)
    ensures Fits(s + t, m + n)
  {
    hide Scan, Numbers, Joinable, EndQuote;
    EndQuoteConcat(s, t, None);
    ScanConcat(s, t, None);
    NumbersConcat(Scan(s, None), Scan(t, None));
  }

  lemma SafeConcat(s: string, m: seq<nat>, t: string, n: seq<nat>)
    requires Fits(s, m) && Fits(t, n) && (t == "" || SafeStart(t))
    ensures Fits(s + t, m + n)
  {
    hide Fits;
    SafeJoin(s, t);
    FitsConcat(s, m, t, n);
  }

  lemma PlainText(s: string)
    requires forall i :: 0 <= i < |s| ==> s[i] != ':' && !IsQuote(s[i])
    ensures Fits(s, [])
  {
    PlainPiece(s, 0);
  }

  lemma PlaceText(n: nat)
    ensures Fits(Place(n), [n]) && SafeStart(Place(n))
  {
    PlacePiece(n, 0);
  }

  lemma QuotedText(name: string)
    requires QuoteFree(name)
    ensures Fits(Quoted(name), []) && SafeStart(Quoted(name))
  {
    QuotedPiece('"', name, 0);
    assert Quoted(name) == ['"'] + name + ['"'];
  }

  /** The names of the object and of the selected columns are without quotes. */
  predicate NamesQuoted(input: ScanInput) {
    && QuoteFree(input.owner) && QuoteFree(input.table)
    && forall i :: 0 <= i < |input.columns| ==> QuoteFree(input.columns[i].name)
  }

  /** Quoted names without quotes, filters numbered from :b1. */
  ghost predicate InputFits(input: ScanInput) {
    && NamesQuoted(input)
    && (forall i :: 0 <= i < |input.filters| ==> FragmentFits(input.filters[i]))
  }

  ghost predicate FragmentFits(f: Fragment) {
    Fits(f.sql, Range(0, |f.binds|)) && SafeStart(f.sql)
  }

  /** A name with text around it. */
  lemma AroundName(open: string, name: string, close: string)
    requires QuoteFree(name) && Fits(open, NONE) && SafeStart(open) && Fits(close, NONE) && SafeStart(close)
    ensures Fits(open + Quoted(name) + close, NONE) && SafeStart(open + Quoted(name) + close)
  {
    hide Fits, Quoted;
    QuotedText(name);
    AppendPlain(open, NONE, Quoted(name));
    AppendPlain(open + Quoted(name), NONE, close);
  }

  lemma SelectTextFits(e: SelectExpr)
    requires QuoteFree(e.name)
    ensures Fits(SelectText(e), NONE) && SafeStart(SelectText(e))
  {
    hide Fits, Quoted, QuoteFree;
    PlainText(")");
    match e
    case PlainColumn(name) => QuotedText(name);
    case ZonedUtc(name) =>
      PlainText("SYS_EXTRACT_UTC(");
      AroundName("SYS_EXTRACT_UTC(", name, ")");
    case LocalUtc(name) =>
      PlainText("SYS_EXTRACT_UTC(CAST(");
      PlainText(" AS TIMESTAMP WITH TIME ZONE))");
      AroundName("SYS_EXTRACT_UTC(CAST(", name, " AS TIMESTAMP WITH TIME ZONE))");
    case RowidChars(name) =>
      PlainText("ROWIDTOCHAR(");
      AroundName("ROWIDTOCHAR(", name, ")");
    case UrowidChars(name) =>
      PlainText("CAST(");
      PlainText(" AS VARCHAR2(4000))");
      AroundName("CAST(", name, " AS VARCHAR2(4000))");
  }

  lemma {:induction false} SelectFits(columns: seq<SelectExpr>)
    requires forall i :: 0 <= i < |columns| ==> QuoteFree(columns[i].name)
    ensures Fits(SelectList(columns), [])
  {
    hide Fits, SafeStart, SelectText, QuoteFree;
    PlainText("");
    PlainText(", ");
    if columns != [] {
      var n := |columns| - 1;
      SelectFits(columns[..n]);
      var comma := if n > 0 then ", " else "";
      CommaIsSafe();
      SelectTextFits(columns[n]);
      SafeConcat(SelectList(columns[..n]), NONE, comma, NONE);
      SafeConcat(SelectList(columns[..n]) + comma, NONE + NONE, SelectText(columns[n]), NONE);
      assert NONE + NONE + NONE == NONE;
    }
  }

  lemma CommaIsSafe()
    ensures SafeStart(", ")
  {}

  lemma HeadFits(input: ScanInput)
    requires InputFits(input)
    ensures Fits(Head(input), Range(0, |SnapshotBinds(input)|))
  {
    hide Fits, Quoted, SelectList, Place, Decimal, SafeStart;
    var s := "SELECT /* oraduck_scan */ ";
    var list := if input.columns == [] then "1" else SelectList(input.columns);
    HeadLiterals();
    assert NONE + NONE == NONE;
    if input.columns != [] { SelectFits(input.columns); }
    AfterSpace(s, list);
    FitsConcat(s, NONE, list, NONE);
    s := s + list;
    SafeConcat(s, NONE, " FROM ", NONE);
    s := s + " FROM ";
    QuotedText(input.owner);
    SafeConcat(s, NONE, Quoted(input.owner), NONE);
    s := s + Quoted(input.owner);
    SafeConcat(s, NONE, ".", NONE);
    s := s + ".";
    QuotedText(input.table);
    SafeConcat(s, NONE, Quoted(input.table), NONE);
    s := s + Quoted(input.table);
    if input.snapshotScn != "" {
      SafeConcat(s, [], " AS OF SCN TO_NUMBER(", NONE);
      PlaceText(1);
      SafeConcat(s + " AS OF SCN TO_NUMBER(", [] + [], Place(1), [1]);
      SafeConcat(s + " AS OF SCN TO_NUMBER(" + Place(1), [] + [] + [1], ")", NONE);
      assert [] + [] + [1] + [] == Range(0, 1);
      assert s + (" AS OF SCN TO_NUMBER(" + Place(1) + ")") == s + " AS OF SCN TO_NUMBER(" + Place(1) + ")";
    } else {
      assert Range(0, 0) == [] && s + "" == s;
    }
  }

  lemma AfterSpace(s: string, t: string)
    requires s != "" && s[|s| - 1] == ' '
    ensures Joinable(s, t)
  {}

  lemma HeadLiterals()
    ensures Fits("SELECT /* oraduck_scan */ ", []) && Fits("1", []) && Fits(" FROM ", []) && SafeStart(" FROM ")
    ensures Fits(".", []) && SafeStart(".") && Fits(" AS OF SCN TO_NUMBER(", []) && SafeStart(" AS OF SCN TO_NUMBER(")
    ensures Fits(")", []) && SafeStart(")")
  {
    hide Fits;
    PlainText("SELECT /* oraduck_scan */ ");
    PlainText("1");
    PlainText(" FROM ");
    PlainText(".");
    PlainText(" AS OF SCN TO_NUMBER(");
    PlainText(")");
  }

  lemma ShiftedFits(s: string, n: nat, k: nat)
    requires Fits(s, Range(0, n)) && SafeStart(s)
    ensures Fits(Shift(s, k), Range(k, n)) && SafeStart(Shift(s, k))
  {
    hide Scan, Render, Numbers, EndQuote, ShiftTokens, ShiftRest;
    ShiftIsRest(s, k);
    ScanOfShift(s, None, k);
    EndQuoteOfShift(s, None, k);
    NumbersOfShift(Scan(s, None), k);
    ShiftHead(s, None, k);
    assert Placeholders(Shift(s, k)) == Range(k, n);
  }

  lemma WhereAppend(conditions: seq<string>, c: string)
    ensures WhereText(conditions + [c])
         == WhereText(conditions) + (if conditions == [] then " WHERE " else " AND ") + c
  {
    assert (conditions + [c])[..|conditions|] == conditions;
  }

  lemma AddCondition(conditions: seq<string>, m: seq<nat>, c: string, n: seq<nat>)
    requires Fits(WhereText(conditions), m) && Fits(c, n) && SafeStart(c)
    ensures Fits(WhereText(conditions + [c]), m + n)
  {
    hide Fits, WhereText, SafeStart;
    WhereAppend(conditions, c);
    var glue := if conditions == [] then " WHERE " else " AND ";
    GlueFits();
    SafeConcat(WhereText(conditions), m, glue, NONE);
    SafeConcat(WhereText(conditions) + glue, m + NONE, c, n);
    assert m + NONE + n == m + n;
  }

  lemma GlueFits()
    ensures Fits(" WHERE ", NONE) && SafeStart(" WHERE ") && Fits(" AND ", NONE) && SafeStart(" AND ")
  {
    hide Fits;
    PlainText(" WHERE ");
    PlainText(" AND ");
  }

  lemma {:induction false} FiltersFit(filters: seq<Fragment>, first: nat)
    requires forall i :: 0 <= i < |filters| ==> FragmentFits(filters[i])
    ensures Fits(WhereText(FilterConditions(filters, first)), Range(first, |FilterBinds(filters)|))
  {
    hide Fits, WhereText, Shift, SafeStart;
    if filters == [] {
      NoWhere();
      PlainText("");
      assert Range(first, 0) == NONE;
    } else {
      var n := |filters| - 1;
      var off := first + |FilterBinds(filters[..n])|;
      FiltersFit(filters[..n], first);
      ShiftedFits(filters[n].sql, |filters[n].binds|, off);
      AddCondition(FilterConditions(filters[..n], first), Range(first, |FilterBinds(filters[..n])|),
                   Shift(filters[n].sql, off), Range(off, |filters[n].binds|));
      RangeConcat(first, |FilterBinds(filters[..n])|, |filters[n].binds|);
    }
  }

  lemma AppendPlain(s: string, m: seq<nat>, t: string)
    requires Fits(s, m) && Fits(t, NONE) && (t == "" || SafeStart(t))
    ensures Fits(s + t, m)
  {
    hide Fits;
    SafeConcat(s, m, t, NONE);
    assert m + NONE == m;
  }

  lemma AppendPlace(s: string, m: seq<nat>, n: nat)
    requires Fits(s, m)
    ensures Fits(s + Place(n), m + [n])
  {
    hide Fits;
    PlaceText(n);
    SafeConcat(s, m, Place(n), [n]);
  }

  /** Two placeholders in a text. */
  lemma TwoPlaces(a: string, m: nat, b: string, n: nat, c: string)
    requires Fits(a, NONE) && Fits(b, NONE) && Fits(c, NONE) && SafeStart(b) && (c == "" || SafeStart(c))
    ensures Fits(a + Place(m) + b + Place(n) + c, [m, n])
  {
    hide Fits, SafeStart, Place;
    AppendPlace(a, NONE, m);
    assert NONE + [m] == [m];
    AppendPlain(a + Place(m), [m], b);
    AppendPlace(a + Place(m) + b, [m], n);
    assert [m] + [n] == [m, n];
    AppendPlain(a + Place(m) + b + Place(n), [m, n], c);
  }

  lemma SliceFits(slice: SliceKind, n: nat)
    ensures forall c <- SliceConditions(slice, n) :: Fits(c, [n + 1, n + 2]) && SafeStart(c)
    ensures |SliceConditions(slice, n)| == if slice.Whole? then 0 else 1
    ensures |SliceBinds(slice)| == if slice.Whole? then 0 else 2
  {
    hide Fits, Decimal, BindOf, SqlStringLiteral;
    match slice
    case Whole =>
    case RowidRange(_, _, inclusive) =>
      if inclusive { BetweenFits(n); } else { RangeFits(n); }
    case Hash(_, _) => HashFits(n);
  }

  lemma BetweenFits(n: nat)
    ensures Fits("ROWID BETWEEN CHARTOROWID(" + Place(n + 1) + ") AND CHARTOROWID(" + Place(n + 2) + ")",
                 [n + 1, n + 2])
  {
    hide Fits, Place;
    PlainText("ROWID BETWEEN CHARTOROWID(");
    PlainText(") AND CHARTOROWID(");
    PlainText(")");
    TwoPlaces("ROWID BETWEEN CHARTOROWID(", n + 1, ") AND CHARTOROWID(", n + 2, ")");
  }

  lemma RangeFits(n: nat)
    ensures Fits("ROWID >= CHARTOROWID(" + Place(n + 1) + ") AND ROWID < CHARTOROWID(" + Place(n + 2) + ")",
                 [n + 1, n + 2])
  {
    hide Fits, Place;
    PlainText("ROWID >= CHARTOROWID(");
    PlainText(") AND ROWID < CHARTOROWID(");
    PlainText(")");
    TwoPlaces("ROWID >= CHARTOROWID(", n + 1, ") AND ROWID < CHARTOROWID(", n + 2, ")");
  }

  lemma HashFits(n: nat)
    ensures Fits("ORA_HASH(ROWID, " + Place(n + 1) + ") = " + Place(n + 2), [n + 1, n + 2])
  {
    hide Fits, Place;
    PlainText("ORA_HASH(ROWID, ");
    PlainText(") = ");
    PlainText("");
    TwoPlaces("ORA_HASH(ROWID, ", n + 1, ") = ", n + 2, "");
    var s := "ORA_HASH(ROWID, " + Place(n + 1) + ") = " + Place(n + 2);
    assert s + "" == s;
  }

  lemma {:induction false} WhereStarts(conditions: seq<string>)
    ensures conditions == [] ==> WhereText(conditions) == ""
    ensures conditions != [] ==> SafeStart(WhereText(conditions))
  {
    if |conditions| > 1 { WhereStarts(conditions[..|conditions| - 1]); }
  }

  /** Outside quotes, the placeholders of a statement are :b1, :b2, ... in the order of its text, one for each
      bind: Oracle, which binds by position, gives the k-th of them the k-th bind. */
  lemma StatementNumbered(input: ScanInput, slice: SliceKind)
    requires InputFits(input)
    ensures var stmt := StatementOf(input, slice);
            Placeholders(stmt.sql) == Range(0, |stmt.binds|) && EndQuote(stmt.sql, None) == None
  {
    hide WhereText, FilterConditions, FilterBinds, SliceConditions, SliceBinds, Head, SnapshotBinds, Fits, SafeStart;
    var first := |SnapshotBinds(input)|;
    var many := |FilterBinds(input.filters)|;
    var conditions := FilterConditions(input.filters, first) + SliceConditions(slice, first + many);
    HeadFits(input);
    WhereFits(input, slice, first);
    WhereStarts(conditions);
    SafeConcat(Head(input), Range(0, first), WhereText(conditions), Range(first, many + |SliceBinds(slice)|));
    RangeConcat(0, first, many + |SliceBinds(slice)|);
    FitsMeans(StatementOf(input, slice).sql, Range(0, |StatementOf(input, slice).binds|));
  }

  lemma FitsMeans(s: string, numbers: seq<nat>)
    requires Fits(s, numbers)
    ensures Placeholders(s) == numbers && EndQuote(s, None) == None
  {}

  lemma WhereFits(input: ScanInput, slice: SliceKind, first: nat)
    requires forall i :: 0 <= i < |input.filters| ==> FragmentFits(input.filters[i])
    ensures var many := |FilterBinds(input.filters)|;
            Fits(WhereText(FilterConditions(input.filters, first) + SliceConditions(slice, first + many)),
                 Range(first, many + |SliceBinds(slice)|))
  {
    hide WhereText, FilterConditions, FilterBinds, SliceConditions, SliceBinds, Fits, SafeStart;
    var many := |FilterBinds(input.filters)|;
    var n := first + many;
    var filters, sliced := FilterConditions(input.filters, first), SliceConditions(slice, n);
    FiltersFit(input.filters, first);
    SliceFits(slice, n);
    if slice.Whole? {
      assert filters + sliced == filters;
    } else {
      assert sliced[0] in sliced && sliced == [sliced[0]];
      AddCondition(filters, Range(first, many), sliced[0], [n + 1, n + 2]);
      assert Range(n, 2) == [n + 1, n + 2];
      RangeConcat(first, many, 2);
    }
  }

  // The rows it selects

  lemma {:induction false} ConditionAt(filters: seq<Fragment>, first: nat, i: nat)
    requires i < |filters|
    ensures FilterConditions(filters, first)[i] == Shift(filters[i].sql, first + |FilterBinds(filters[..i])|)
    ensures Placed(FilterBinds(filters), |FilterBinds(filters[..i])|, filters[i].binds)
  {
    hide Shift;
    var n := |filters| - 1;
    if i < n {
      ConditionAt(filters[..n], first, i);
      assert filters[..n][..i] == filters[..i];
      var k, m := |FilterBinds(filters[..i])|, |filters[i].binds|;
      assert FilterBinds(filters)[k..k + m] == FilterBinds(filters[..n])[k..k + m];
    } else {
      var k := |FilterBinds(filters[..n])|;
      assert FilterBinds(filters)[k..k + |filters[n].binds|] == filters[n].binds;
    }
  }

  lemma PlacedWithin(part: seq<BindValue>, k: nat, binds: seq<BindValue>, before: seq<BindValue>, after: seq<BindValue>)
    requires Placed(binds, k, part)
    ensures Placed(before + binds + after, |before| + k, part)
  {
    var all := before + binds + after;
    assert all[|before| + k..|before| + k + |part|] == binds[k..k + |part|];
  }

  /** A fragment moved up by `off` is read as the filter translated after `off` binds. */
  lemma FragmentParses(node: FilterNode, columns: seq<OracleColumn>, charset: string, off: nat)
    requires FragmentOf(node, columns, charset).Some? && NamesFit(columns)
    ensures var f, built := FragmentOf(node, columns, charset).value, TranslateNode(node, columns, charset, off);
            built.Some? && built.value.binds == f.binds && Parse(Shift(f.sql, off)) == Some(built.value.sql)
  {
    hide Text, Display, Shift, TranslateNode, Parse, NamesFit, ShiftCond;
    var built := TranslateNode(node, columns, charset, 0).value;
    TranslationWellFormed(node, columns, charset, 0);
    ShiftedText(built.sql, off);
    TranslationShift(node, columns, charset, 0, off);
    TranslationWellFormed(node, columns, charset, off);
    TextParses(ShiftCond(built.sql, off));
  }

  lemma BindsOfFilter(input: ScanInput, slice: SliceKind, i: nat)
    requires i < |input.filters|
    ensures var off := |SnapshotBinds(input)| + |FilterBinds(input.filters[..i])|;
            && FilterConditions(input.filters, |SnapshotBinds(input)|)[i] == Shift(input.filters[i].sql, off)
            && Placed(StatementOf(input, slice).binds, off, input.filters[i].binds)
  {
    hide Shift, FilterConditions, FilterBinds, SliceBinds, SnapshotBinds, Head, WhereText, SliceConditions, Placed;
    ConditionAt(input.filters, |SnapshotBinds(input)|, i);
    PlacedWithin(input.filters[i].binds, |FilterBinds(input.filters[..i])|, FilterBinds(input.filters),
                 SnapshotBinds(input), SliceBinds(slice));
  }

  /** The condition that stands for a filter in the statement of any unit, wherever its binds have moved to, is
      read as a condition that is true, false or unknown exactly where the filter is. */
  lemma FilterInStatement(input: ScanInput, slice: SliceKind, i: nat, node: FilterNode, columns: seq<OracleColumn>,
                          charset: string, other: Database, row: StoredRow)
    requires i < |input.filters| && FragmentOf(node, columns, charset) == Some(input.filters[i])
    requires NodeFits(node) && RowStored(columns, row) && NamesFit(columns)
    ensures var c := Parse(FilterConditions(input.filters, |SnapshotBinds(input)|)[i]);
            && c.Some? && |row| == |columns|
            && Eval(c.value, StatementOf(input, slice).binds, columns, charset, other, row)
               == FilterSql.Meaning(node, ReadRow(columns, other, row))
  {
    hide Shift, TranslateNode, FilterConditions, FilterBinds, SnapshotBinds, Eval, FilterSql.Meaning, Parse, RowStored,
         NamesFit, NodeFits, Placed, FragmentOf, StatementOf;
    var off := |SnapshotBinds(input)| + |FilterBinds(input.filters[..i])|;
    BindsOfFilter(input, slice, i);
    FragmentParses(node, columns, charset, off);
    RowLength(columns, row);
    TranslationSound(node, columns, charset, off, StatementOf(input, slice).binds, other, row);
  }

  /** Translated filters are fragments as the statement expects them. */
  lemma TranslatedFits(node: FilterNode, columns: seq<OracleColumn>, charset: string)
    requires FragmentOf(node, columns, charset).Some? && NamesFit(columns)
    ensures FragmentFits(FragmentOf(node, columns, charset).value)
  {
    hide Text, Display, TranslateNode, SlotNumbers, Lexes;
    var built := TranslateNode(node, columns, charset, 0).value;
    TranslationWellFormed(node, columns, charset, 0);
    TranslationNumbers(node, columns, charset, 0);
    ShiftedText(built.sql, 0);
    TextOpens(built.sql);
  }
}
