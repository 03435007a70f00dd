/** The rows that the statement of a unit selects, read off its text: those that pass every filter and lie in the
    slice of the unit. Over all units of a plan, every row that passes the filters is selected once. */
module UnitQueries {
  import opened Machine
  import opened OracleNumber
  import opened NumberReading
  import opened NumberBinds
  import opened Numerals
  import opened SqlTokens
  import opened SqlConditions
  import opened SqlParser
  import opened FilterValues
  import opened OracleColumns
  import opened OracleConditions
  import opened FilterSql
  import opened FilterSoundness
  import opened FilterNumbering
  import opened FilterBuilder
  import opened ReadSql
  import opened StatementHead
  import Rowid
  import RowidSlices

  /** Conditions on the ROWID, by the numbers of their binds. */
  datatype SliceTest = Within(lo: nat, hi: nat, inclusive: bool) | InBucket(last: nat, bucket: nat)

  datatype WhereClause = WhereClause(filters: seq<Cond>, slice: Option<SliceTest>)

  // Reading a statement

  /** open :bM middle :bN close, and nothing behind it */
  function ReadTwo(s: string, open: string, middle: string, close: string): Option<(nat, nat)> {
    match Strip(s, open + ":b")
    case None => None
    case Some(first) =>
      match ParseNumber(first)
      case None => None
      case Some(m) =>
        match Strip(m.rest, middle + ":b")
        case None => None
        case Some(second) =>
          match ParseNumber(second)
          case None => None
          case Some(n) => if n.rest == close then Some((m.value, n.value)) else None
  }

  function ReadSlice(s: string): Option<SliceTest> {
    var between := ReadTwo(s, "ROWID BETWEEN CHARTOROWID(", ") AND CHARTOROWID(", ")");
    var from := ReadTwo(s, "ROWID >= CHARTOROWID(", ") AND ROWID < CHARTOROWID(", ")");
    var hash := ReadTwo(s, "ORA_HASH(ROWID, ", ") = ", "");
    if between.Some? then Some(Within(between.value.0, between.value.1, true))
    else if from.Some? then Some(Within(from.value.0, from.value.1, false))
    else if hash.Some? then Some(InBucket(hash.value.0, hash.value.1))
    else None
  }

  /** Conditions joined by AND: filters in brackets, the slice at the end. */
  function ReadParts(s: string): Option<WhereClause>
    decreases |s|
  {
    if s == "" || s[0] != '(' then
      match ReadSlice(s)
      case None => None
      case Some(test) => Some(WhereClause([], Some(test)))
    else
      match ParseCond(s)
      case None => None
      case Some(p) =>
        if p.rest == "" then Some(WhereClause([p.value], None))
        else
          match Strip(p.rest, " AND ")
          case None => None
          case Some(rest) =>
            match ReadParts(rest)
            case None => None
            case Some(w) => Some(WhereClause([p.value] + w.filters, w.slice))
  }

  function ReadWhere(s: string): Option<WhereClause> {
    if s == "" then Some(WhereClause([], None))
    else
      match Strip(s, " WHERE ")
      case None => None
      case Some(rest) => ReadParts(rest)
  }

  // What it selects

  /** ORA_HASH of a row, for a highest bucket number. */
  type Hashing = (nat, int) -> int

  function IntegerOfBind(binds: seq<BindValue>, n: nat): Option<int> {
    if 1 <= n <= |binds| && binds[n - 1].data.NumberData? then
      match DecodeBytes(binds[n - 1].data.number, 0, false, TWO127)
      case Success(Exactly(v)) => Some(v)
      case _ => None
    else None
  }

  predicate SliceTrue(test: SliceTest, binds: seq<BindValue>, hashing: Hashing, pos: nat) {
    match test
    case Within(lo, hi, inclusive) =>
      var from, until := TextOfBind(binds, lo), TextOfBind(binds, hi);
      && from.Some? && until.Some? && Rowid.Position(from.value) <= pos
      && if inclusive then pos <= Rowid.Position(until.value) else pos < Rowid.Position(until.value)
    case InBucket(last, bucket) =>
      var highest, wanted := IntegerOfBind(binds, last), IntegerOfBind(binds, bucket);
      highest.Some? && wanted.Some? && hashing(pos, highest.value) == wanted.value
  }

  /** The statement selects this row, which is at this position of the ROWID space. */
  ghost predicate Selects(stmt: Statement, columns: seq<OracleColumn>, charset: string, other: Database,
                          hashing: Hashing, row: StoredRow, pos: nat)
    requires |row| == |columns|
  {
    var head := ReadHead(stmt.sql);
    var where := if head.None? then None else ReadWhere(head.value.rest);
    && where.Some?
    && (forall c <- where.value.filters :: Eval(c, stmt.binds, columns, charset, other, row) == True)
    && (where.value.slice.Some? ==> SliceTrue(where.value.slice.value, stmt.binds, hashing, pos))
  }

  /** A position lies in the slice of a unit. */
  predicate InSlice(slice: SliceKind, hashing: Hashing, pos: nat) {
    match slice
    case Whole => true
    case RowidRange(lo, hi, inclusive) => RowidSlices.Contains(RowidSlices.Slice(lo, hi, inclusive), pos)
    case Hash(buckets, bucket) => hashing(pos, (buckets as int) - 1) == bucket
  }

  // The slice

  lemma TwoRead(open: string, m: nat, middle: string, n: nat, close: string)
    requires middle != "" && !IsDigit(middle[0]) && (close == "" || !IsDigit(close[0]))
    ensures ReadTwo(open + ReadSql.Place(m) + middle + ReadSql.Place(n) + close, open, middle, close) == Some((m, n))
  {
    hide Decimal, NumberOf, ParseNumber, Strip;
    var second := Decimal(n) + close;
    var first := Decimal(m) + ((middle + ":b") + second);
    assert open + ReadSql.Place(m) + middle + ReadSql.Place(n) + close == (open + ":b") + first;
    StripOf(open + ":b", first);
    NumberReads(m, (middle + ":b") + second);
    StripOf(middle + ":b", second);
    NumberReads(n, close);
  }

  /** Another beginning is not read. */
  lemma TwoNotRead(s: string, open: string, middle: string, close: string, i: nat)
    requires i < |open| && i < |s| && s[i] != open[i]
    ensures ReadTwo(s, open, middle, close) == None
  {
    StripNot(s, open + ":b", i);
  }

  function TestOf(slice: SliceKind, n: nat): SliceTest
    requires !slice.Whole?
  {
    if slice.RowidRange? then Within(n + 1, n + 2, slice.inclusive) else InBucket(n + 1, n + 2)
  }

  lemma SliceReads(slice: SliceKind, n: nat)
    requires !slice.Whole?
    ensures |SliceConditions(slice, n)| == 1
    ensures var s := SliceConditions(slice, n)[0];
            s != "" && s[0] != '(' && ReadSlice(s) == Some(TestOf(slice, n))
  {
    hide Decimal, ReadTwo;
    var s := SliceConditions(slice, n)[0];
    match slice
    case RowidRange(_, _, inclusive) =>
      if inclusive {
        TwoRead("ROWID BETWEEN CHARTOROWID(", n + 1, ") AND CHARTOROWID(", n + 2, ")");
      } else {
        TwoNotRead(s, "ROWID BETWEEN CHARTOROWID(", ") AND CHARTOROWID(", ")", 6);
        TwoRead("ROWID >= CHARTOROWID(", n + 1, ") AND ROWID < CHARTOROWID(", n + 2, ")");
      }
    case Hash(_, _) =>
      TwoNotRead(s, "ROWID BETWEEN CHARTOROWID(", ") AND CHARTOROWID(", ")", 0);
      TwoNotRead(s, "ROWID >= CHARTOROWID(", ") AND ROWID < CHARTOROWID(", ")", 0);
      TwoRead("ORA_HASH(ROWID, ", n + 1, ") = ", n + 2, "");
      assert s == "ORA_HASH(ROWID, " + ReadSql.Place(n + 1) + ") = " + ReadSql.Place(n + 2) + "";
  }

  /** A bound integer is received as itself. */
  lemma IntegerReceived(v: int, binds: seq<BindValue>, n: nat)
    requires -TWO127 <= v < TWO127 && 1 <= n <= |binds| && binds[n - 1] == NumberBindValue(v)
    ensures IntegerOfBind(binds, n) == Some(v)
  {
    hide DecodeBytes, BindOf;
    assert binds[n - 1].data == NumberData(BindOf(v, 0).bytes);
    assert DecodeBytes(BindOf(v, 0).bytes, 0, false, TWO127) == Success(Exactly(v)) by { BindIsExact(v, 0); }
  }

  /** The slice's condition with its binds, at the end of the statement's binds, is the slice. */
  lemma SliceSound(slice: SliceKind, before: seq<BindValue>, hashing: Hashing, pos: nat)
    requires !slice.Whole?
    ensures SliceTrue(TestOf(slice, |before|), before + SliceBinds(slice), hashing, pos)
       <==> InSlice(slice, hashing, pos)
  {
    hide Rowid.Position, IntegerOfBind, NumberBindValue, SqlStringLiteral;
    var binds := before + SliceBinds(slice);
    assert binds[|before|] == SliceBinds(slice)[0] && binds[|before| + 1] == SliceBinds(slice)[1];
    if slice.Hash? {
      IntegerReceived((slice.buckets as int) - 1, binds, |before| + 1);
      IntegerReceived(slice.bucket, binds, |before| + 2);
    }
  }

  // The whole WHERE clause

  /** Conditions joined from the first one on. */
  function JoinText(conditions: seq<string>): string
    requires conditions != []
  {
    if |conditions| == 1 then conditions[0] else conditions[0] + " AND " + JoinText(conditions[1..])
  }

  lemma {:induction false} JoinAppend(conditions: seq<string>, c: string)
    requires conditions != []
    ensures JoinText(conditions + [c]) == JoinText(conditions) + " AND " + c
  {
    var all := conditions + [c];
    assert all[1..] == conditions[1..] + [c];
    if |conditions| > 1 {
      JoinAppend(conditions[1..], c);
    } else {
      assert all[1..] == [c];
    }
  }

  lemma {:induction false} WhereIsJoined(conditions: seq<string>)
    ensures WhereText(conditions) == if conditions == [] then "" else " WHERE " + JoinText(conditions)
  {
    if |conditions| > 1 {
      var n := |conditions| - 1;
      WhereIsJoined(conditions[..n]);
      JoinAppend(conditions[..n], conditions[n]);
      assert conditions[..n] + [conditions[n]] == conditions;
    }
  }

  function Texts(conds: seq<Cond>): (r: seq<string>)
    ensures |r| == |conds| && forall i :: 0 <= i < |conds| ==> r[i] == Text(conds[i])
  {
    seq(|conds|, i requires 0 <= i < |conds| => Text(conds[i]))
  }

  /** Filters, and behind them a slice or nothing, read back. */
  lemma {:induction false} PartsRead(conds: seq<Cond>, tail: seq<string>, test: Option<SliceTest>)
    requires forall c <- conds :: WellFormed(c)
    requires if test == None then tail == [] && conds != []
             else |tail| == 1 && tail[0] != "" && tail[0][0] != '(' && ReadSlice(tail[0]) == test
    ensures ReadParts(JoinText(Texts(conds) + tail)) == Some(WhereClause(conds, test))
  {
    hide Text, ParseCond, ReadSlice, Strip, WellFormed;
    var all := Texts(conds) + tail;
    if conds == [] {
      assert all == tail;
    } else {
      var c := conds[0];
      assert c in conds;
      TextOpens(c);
      assert all[1..] == Texts(conds[1..]) + tail;
      if |all| == 1 {
        TextReads(c, "");
        assert Text(c) + "" == Text(c) && conds == [c];
      } else {
        PartsRead(conds[1..], tail, test);
        var rest := JoinText(all[1..]);
        TextReads(c, " AND " + rest);
        assert JoinText(all) == Text(c) + (" AND " + rest);
        StripOf(" AND ", rest);
        assert [c] + conds[1..] == conds;
      }
    }
  }

  /** The condition of filter i, after the binds before it. */
  function CondAt(input: ScanInput, i: nat, node: FilterNode, columns: seq<OracleColumn>, charset: string): Option<Cond>
    requires i < |input.filters|
  {
    match TranslateNode(node, columns, charset, |SnapshotBinds(input)| + |FilterBinds(input.filters[..i])|)
    case None => None
    case Some(built) => Some(built.sql)
  }

  lemma ConditionText(input: ScanInput, i: nat, node: FilterNode, columns: seq<OracleColumn>, charset: string)
    requires i < |input.filters| && FragmentOf(node, columns, charset) == Some(input.filters[i]) && NamesFit(columns)
    ensures var c := CondAt(input, i, node, columns, charset);
            && c.Some? && WellFormed(c.value) && Parse(Text(c.value)) == Some(c.value)
            && FilterConditions(input.filters, |SnapshotBinds(input)|)[i] == Text(c.value)
  {
    hide Text, Display, Shift, TranslateNode, NamesFit, ShiftCond, FilterConditions, FilterBinds, SnapshotBinds, Parse;
    var off := |SnapshotBinds(input)| + |FilterBinds(input.filters[..i])|;
    var built := TranslateNode(node, columns, charset, 0).value;
    ConditionAt(input.filters, |SnapshotBinds(input)|, i);
    TranslationWellFormed(node, columns, charset, 0);
    ShiftedText(built.sql, off);
    TranslationShift(node, columns, charset, 0, off);
    TranslationWellFormed(node, columns, charset, off);
    TextParses(ShiftCond(built.sql, off));
  }

  /** The filters of a scan were translated from these trees. */
  ghost predicate FromNodes(input: ScanInput, nodes: seq<FilterNode>, columns: seq<OracleColumn>, charset: string) {
    && |nodes| == |input.filters|
    && forall i :: 0 <= i < |nodes| ==>
         FragmentOf(nodes[i], columns, charset) == Some(input.filters[i]) && NodeFits(nodes[i])
  }

  /** DuckDB finds all filters true for what it reads of the row. */
  ghost predicate AllTrue(nodes: seq<FilterNode>, columns: seq<OracleColumn>, other: Database, row: StoredRow)
    requires |row| == |columns|
  {
    forall node <- nodes :: FilterSql.Meaning(node, ReadRow(columns, other, row)) == True
  }

  /** The WHERE clause reads as the filters' conditions and the slice's. */
  lemma WhereReads(input: ScanInput, slice: SliceKind, conds: seq<Cond>)
    requires FilterConditions(input.filters, |SnapshotBinds(input)|) == Texts(conds)
    requires forall c <- conds :: WellFormed(c)
    ensures var n := |SnapshotBinds(input) + FilterBinds(input.filters)|;
            (ReadWhere(WhereText(FilterConditions(input.filters, |SnapshotBinds(input)|) + SliceConditions(slice, n)))
             == Some(WhereClause(conds, if slice.Whole? then None else Some(TestOf(slice, n)))))
  {
    hide FilterConditions, FilterBinds, SnapshotBinds, WhereText, ReadParts, ReadSlice, Strip, Text, WellFormed,
         ReadSql.Place;
    var n := |SnapshotBinds(input) + FilterBinds(input.filters)|;
    var test := if slice.Whole? then None else Some(TestOf(slice, n));
    var all := Texts(conds) + SliceConditions(slice, n);
    WhereIsJoined(all);
    if !slice.Whole? { SliceReads(slice, n); }
    if all != [] {
      PartsRead(conds, SliceConditions(slice, n), test);
      StripOf(" WHERE ", JoinText(all));
    }
  }

  /** A unit's statement selects a row exactly if every filter is true for it and it lies in the unit's slice. */
  lemma StatementSelects(input: ScanInput, slice: SliceKind, nodes: seq<FilterNode>, columns: seq<OracleColumn>,
                         charset: string, other: Database, hashing: Hashing, row: StoredRow, pos: nat)
    requires NamesQuoted(input) && FromNodes(input, nodes, columns, charset)
    requires RowStored(columns, row) && NamesFit(columns)
    ensures |row| == |columns|
    ensures Selects(StatementOf(input, slice), columns, charset, other, hashing, row, pos)
       <==> AllTrue(nodes, columns, other, row) && InSlice(slice, hashing, pos)
  {
    hide FilterConditions, FilterBinds, SnapshotBinds, SliceBinds, SliceConditions, WhereText, Head, ReadWhere, Eval,
         FilterSql.Meaning, RowStored, ReadRow, NamesFit, NodeFits, FragmentOf, SliceTrue, InSlice, TestOf, CondAt,
         Text, WellFormed, Parse, ReadHead;
    RowLength(columns, row);
    var stmt := StatementOf(input, slice);
    var before := SnapshotBinds(input) + FilterBinds(input.filters);
    var texts := FilterConditions(input.filters, |SnapshotBinds(input)|);
    forall i | 0 <= i < |nodes|
      ensures var c := CondAt(input, i, nodes[i], columns, charset);
              && c.Some? && WellFormed(c.value) && texts[i] == Text(c.value)
              && Eval(c.value, stmt.binds, columns, charset, other, row)
                 == FilterSql.Meaning(nodes[i], ReadRow(columns, other, row))
    {
      ConditionText(input, i, nodes[i], columns, charset);
      FilterInStatement(input, slice, i, nodes[i], columns, charset, other, row);
    }
    var conds := seq(|nodes|, i requires 0 <= i < |nodes| => CondAt(input, i, nodes[i], columns, charset).value);
    assert texts == Texts(conds);
    WhereReads(input, slice, conds);
    HeadReads(input, slice);
    FiltersAgree(conds, nodes, stmt.binds, columns, charset, other, row);
    if slice.Whole? {
      WholeSlice(slice, hashing, pos);
    } else {
      SliceSound(slice, before, hashing, pos);
    }
  }

  lemma WholeSlice(slice: SliceKind, hashing: Hashing, pos: nat)
    requires slice.Whole?
    ensures InSlice(slice, hashing, pos)
  {}

  lemma FiltersAgree(conds: seq<Cond>, nodes: seq<FilterNode>, binds: seq<BindValue>, columns: seq<OracleColumn>,
                     charset: string, other: Database, row: StoredRow)
    requires |conds| == |nodes| && |row| == |columns|
    requires forall i :: 0 <= i < |nodes| ==>
               Eval(conds[i], binds, columns, charset, other, row)
               == FilterSql.Meaning(nodes[i], ReadRow(columns, other, row))
    ensures (forall c <- conds :: Eval(c, binds, columns, charset, other, row) == True)
       <==> AllTrue(nodes, columns, other, row)
  {
    hide Eval, FilterSql.Meaning;
    if forall c <- conds :: Eval(c, binds, columns, charset, other, row) == True {
      forall node | node in nodes
        ensures FilterSql.Meaning(node, ReadRow(columns, other, row)) == True
      {
        var i :| 0 <= i < |nodes| && nodes[i] == node;
        assert conds[i] in conds;
      }
    }
    if AllTrue(nodes, columns, other, row) {
      forall c | c in conds
        ensures Eval(c, binds, columns, charset, other, row) == True
      {
        var i :| 0 <= i < |conds| && conds[i] == c;
        assert nodes[i] in nodes;
      }
    }
  }

  // All units of a scan

  /** How many of the units' statements select a row. */
  ghost function Selecting(input: ScanInput, slices: seq<SliceKind>, columns: seq<OracleColumn>, charset: string,
                           other: Database, hashing: Hashing, row: StoredRow, pos: nat): nat
    requires |row| == |columns|
  {
    if slices == [] then 0
    else
      var n := |slices| - 1;
      Selecting(input, slices[..n], columns, charset, other, hashing, row, pos)
      + if Selects(StatementOf(input, slices[n]), columns, charset, other, hashing, row, pos) then 1 else 0
  }

  function InSlices(slices: seq<SliceKind>, hashing: Hashing, pos: nat): nat {
    if slices == [] then 0
    else InSlices(slices[..|slices| - 1], hashing, pos) + if InSlice(slices[|slices| - 1], hashing, pos) then 1 else 0
  }

  lemma {:induction false} SelectingCount(input: ScanInput, slices: seq<SliceKind>, nodes: seq<FilterNode>,
                                          columns: seq<OracleColumn>, charset: string, other: Database,
                                          hashing: Hashing, row: StoredRow, pos: nat)
    requires NamesQuoted(input) && FromNodes(input, nodes, columns, charset)
    requires RowStored(columns, row) && NamesFit(columns)
    ensures |row| == |columns|
    ensures Selecting(input, slices, columns, charset, other, hashing, row, pos)
         == if AllTrue(nodes, columns, other, row) then InSlices(slices, hashing, pos) else 0
  {
    hide FromNodes, RowStored, ReadRow, NamesFit, AllTrue, Selects, InSlice, StatementOf;
    RowLength(columns, row);
    if slices != [] {
      var n := |slices| - 1;
      SelectingCount(input, slices[..n], nodes, columns, charset, other, hashing, row, pos);
      StatementSelects(input, slices[n], nodes, columns, charset, other, hashing, row, pos);
    }
  }

  function RangeOf(slice: RowidSlices.Slice): SliceKind {
    RowidRange(slice.lo, slice.hi, slice.inclusive)
  }

  function RangesOf(slices: seq<RowidSlices.Slice>): (r: seq<SliceKind>)
    ensures |r| == |slices| && forall i :: 0 <= i < |slices| ==> r[i] == RangeOf(slices[i])
  {
    seq(|slices|, i requires 0 <= i < |slices| => RangeOf(slices[i]))
  }

  lemma {:induction false} RangesCount(slices: seq<RowidSlices.Slice>, hashing: Hashing, pos: nat)
    ensures InSlices(RangesOf(slices), hashing, pos) == RowidSlices.Readers(slices, pos)
  {
    hide RowidSlices.Contains;
    if slices != [] {
      var n := |slices| - 1;
      RangesCount(slices[..n], hashing, pos);
      assert RangesOf(slices)[..n] == RangesOf(slices[..n]);
    }
  }

  /** Over the units of a plan that holds each row of the listed objects once, exactly one statement selects each row
      of these objects for which all filters are true; no statement selects any other row. */
  lemma EveryRowOnce(input: ScanInput, slices: seq<RowidSlices.Slice>, extents: seq<RowidSlices.Extent>,
                     nodes: seq<FilterNode>, columns: seq<OracleColumn>, charset: string, other: Database,
                     hashing: Hashing, row: StoredRow, a: RowidSlices.Address)
    requires NamesQuoted(input) && FromNodes(input, nodes, columns, charset)
    requires RowStored(columns, row) && NamesFit(columns) && a.Valid()
    requires RowidSlices.EachReadOnce(slices, extents)
    ensures |row| == |columns|
    ensures Selecting(input, RangesOf(slices), columns, charset, other, hashing, row, a.Pos())
         == if AllTrue(nodes, columns, other, row) && RowidSlices.Listed(extents, a.obj) then 1 else 0
  {
    hide FromNodes, RowStored, ReadRow, NamesFit, AllTrue, Selecting, InSlices;
    SelectingCount(input, RangesOf(slices), nodes, columns, charset, other, hashing, row, a.Pos());
    RangesCount(slices, hashing, a.Pos());
  }

  /** The first k of the hash slices. */
  function Buckets(buckets: uint32, k: nat): (r: seq<SliceKind>)
    requires k <= buckets
    ensures |r| == k && forall i :: 0 <= i < k ==> r[i] == Hash(buckets, i)
  {
    seq(k, i requires 0 <= i < k => Hash(buckets, i))
  }

  lemma {:induction false} BucketsCount(buckets: uint32, k: nat, hashing: Hashing, pos: nat)
    requires k <= buckets && 0 <= hashing(pos, (buckets as int) - 1)
    ensures InSlices(Buckets(buckets, k), hashing, pos) == if hashing(pos, (buckets as int) - 1) < k then 1 else 0
  {
    if k > 0 {
      BucketsCount(buckets, k - 1, hashing, pos);
      assert Buckets(buckets, k)[..k - 1] == Buckets(buckets, k - 1);
    }
  }

  /** With hash slices, whatever the hash of a row is, exactly one statement selects it if all filters are true. */
  lemma EveryRowInOneBucket(input: ScanInput, buckets: uint32, nodes: seq<FilterNode>, columns: seq<OracleColumn>,
                            charset: string, other: Database, hashing: Hashing, row: StoredRow, pos: nat)
    requires NamesQuoted(input) && FromNodes(input, nodes, columns, charset)
    requires RowStored(columns, row) && NamesFit(columns)
    requires 0 <= hashing(pos, (buckets as int) - 1) < buckets
    ensures |row| == |columns|
    ensures Selecting(input, Buckets(buckets, buckets), columns, charset, other, hashing, row, pos)
         == if AllTrue(nodes, columns, other, row) then 1 else 0
  {
    hide FromNodes, RowStored, ReadRow, NamesFit, AllTrue, Selecting, InSlices;
    SelectingCount(input, Buckets(buckets, buckets), nodes, columns, charset, other, hashing, row, pos);
    BucketsCount(buckets, buckets, hashing, pos);
  }
}
