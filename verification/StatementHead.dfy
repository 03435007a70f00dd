/** The beginning of a unit's statement, read off its text: what it selects, from which object, as of which snapshot;
    and that the values it returns are those that DuckDB is to read. */
module StatementHead {
  import opened Digits
  import opened Numerals
  import opened NumberReading
  import opened SqlConditions
  import opened SqlParser
  import opened FilterValues
  import opened OracleColumns
  import opened OracleConditions
  import opened FilterSql
  import opened FilterSoundness
  import opened ReadSql
  import TypeMap

  datatype ScanHead = ScanHead(columns: seq<SelectExpr>, owner: string, table: string, scn: Option<nat>)

  // Reading the head

  /** A quoted name between two texts. */
  function ReadEnclosed(s: string, open: string, close: string): (r: Option<Parsed<string>>)
    ensures r.Some? ==> |r.value.rest| < |s|
  {
    match Strip(s, open)
    case None => None
    case Some(inner) =>
      match ParseName(inner)
      case None => None
      case Some(p) =>
        match Strip(p.rest, close)
        case None => None
        case Some(rest) => Some(Parsed(p.value, rest))
  }

  function ReadExpr(s: string): (r: Option<Parsed<SelectExpr>>)
    ensures r.Some? ==> |r.value.rest| < |s|
  {
    var plain := ParseName(s);
    var localUtc := ReadEnclosed(s, "SYS_EXTRACT_UTC(CAST(", " AS TIMESTAMP WITH TIME ZONE))");
    var utc := ReadEnclosed(s, "SYS_EXTRACT_UTC(", ")");
    var chars := ReadEnclosed(s, "ROWIDTOCHAR(", ")");
    var text := ReadEnclosed(s, "CAST(", " AS VARCHAR2(4000))");
    if plain.Some? then Some(Parsed(PlainColumn(plain.value.value), plain.value.rest))
    else if localUtc.Some? then Some(Parsed(LocalUtc(localUtc.value.value), localUtc.value.rest))
    else if utc.Some? then Some(Parsed(ZonedUtc(utc.value.value), utc.value.rest))
    else if chars.Some? then Some(Parsed(RowidChars(chars.value.value), chars.value.rest))
    else if text.Some? then Some(Parsed(UrowidChars(text.value.value), text.value.rest))
    else None
  }

  /** Expressions with commas between them, up to what is not a comma. */
  function ReadExprs(s: string): (r: Option<Parsed<seq<SelectExpr>>>)
    ensures r.Some? ==> |r.value.rest| < |s|
    decreases |s|
  {
    match ReadExpr(s)
    case None => None
    case Some(p) =>
      match Strip(p.rest, ", ")
      case None => Some(Parsed([p.value], p.rest))
      case Some(more) =>
        match ReadExprs(more)
        case None => None
        case Some(q) => Some(Parsed([p.value] + q.value, q.rest))
  }

  /** The select list; the number 1 selects no column. */
  function ReadSelected(s: string): Option<Parsed<seq<SelectExpr>>> {
    match Strip(s, "1")
    case Some(rest) => Some(Parsed([], rest))
    case None => ReadExprs(s)
  }

  /** The snapshot, if there is one. */
  function ReadSnapshot(s: string): Option<Parsed<Option<nat>>> {
    match Strip(s, " AS OF SCN TO_NUMBER(:b")
    case None => Some(Parsed(None, s))
    case Some(inner) =>
      match ParseNumber(inner)
      case None => None
      case Some(n) =>
        match Strip(n.rest, ")")
        case None => None
        case Some(rest) => Some(Parsed(Some(n.value), rest))
  }

  function ReadSource(columns: seq<SelectExpr>, s: string): Option<Parsed<ScanHead>> {
    match ReadEnclosed(s, " FROM ", ".")
    case None => None
    case Some(owner) =>
      match ParseName(owner.rest)
      case None => None
      case Some(table) =>
        match ReadSnapshot(table.rest)
        case None => None
        case Some(scn) => Some(Parsed(ScanHead(columns, owner.value, table.value, scn.value), scn.rest))
  }

  /** A statement up to its WHERE. Comments say nothing. */
  function ReadHead(s: string): Option<Parsed<ScanHead>> {
    match Strip(s, "SELECT /* oraduck_scan */ ")
    case None => None
    case Some(list) =>
      match ReadSelected(list)
      case None => None
      case Some(selected) => ReadSource(selected.value, selected.rest)
  }

  // The statement reads back

  lemma EnclosedReads(open: string, name: string, close: string, rest: string)
    requires QuoteFree(name)
    ensures ReadEnclosed(open + Quoted(name) + close + rest, open, close) == Some(Parsed(name, rest))
  {
    hide Quoted, ParseName, Strip;
    assert open + Quoted(name) + close + rest == open + (Quoted(name) + (close + rest));
    StripOf(open, Quoted(name) + (close + rest));
    NameReads(name, close + rest);
    StripOf(close, rest);
  }

  /** Another beginning is not read. */
  lemma EnclosedNot(s: string, open: string, close: string, i: nat)
    requires i < |open| && i < |s| && s[i] != open[i]
    ensures ReadEnclosed(s, open, close) == None
  {
    StripNot(s, open, i);
  }

  lemma ExprReads(e: SelectExpr, rest: string)
    requires QuoteFree(e.name)
    ensures ReadExpr(SelectText(e) + rest) == Some(Parsed(e, rest))
  {
    hide ReadEnclosed;
    var s := SelectText(e) + rest;
    match e
    case PlainColumn(name) => NameReads(name, rest);
    case ZonedUtc(name) =>
      EnclosedNot(s, "SYS_EXTRACT_UTC(CAST(", " AS TIMESTAMP WITH TIME ZONE))", 16);
      EnclosedReads("SYS_EXTRACT_UTC(", name, ")", rest);
    case LocalUtc(name) => EnclosedReads("SYS_EXTRACT_UTC(CAST(", name, " AS TIMESTAMP WITH TIME ZONE))", rest);
    case RowidChars(name) =>
      NoUtc(s);
      EnclosedReads("ROWIDTOCHAR(", name, ")", rest);
    case UrowidChars(name) =>
      NoUtc(s);
      EnclosedNot(s, "ROWIDTOCHAR(", ")", 0);
      EnclosedReads("CAST(", name, " AS VARCHAR2(4000))", rest);
  }

  lemma NoUtc(s: string)
    requires s != "" && s[0] != 'S'
    ensures ReadEnclosed(s, "SYS_EXTRACT_UTC(CAST(", " AS TIMESTAMP WITH TIME ZONE))") == None
    ensures ReadEnclosed(s, "SYS_EXTRACT_UTC(", ")") == None
  {
    EnclosedNot(s, "SYS_EXTRACT_UTC(CAST(", " AS TIMESTAMP WITH TIME ZONE))", 0);
    EnclosedNot(s, "SYS_EXTRACT_UTC(", ")", 0);
  }

  lemma SelectListLast(columns: seq<SelectExpr>)
    requires columns != []
    ensures var n := |columns| - 1;
            SelectList(columns) == SelectList(columns[..n]) + (if n > 0 then ", " else "") + SelectText(columns[n])
  {
    hide SelectText;
  }

  /** The select list from its first expression on. */
  lemma {:induction false} SelectListFirst(columns: seq<SelectExpr>)
    requires columns != []
    ensures SelectList(columns)
         == SelectText(columns[0]) + if |columns| == 1 then "" else ", " + SelectList(columns[1..])
  {
    hide SelectText, SelectList;
    var n := |columns| - 1;
    SelectListLast(columns);
    if n == 0 {
      NothingSelected();
      assert columns[..0] == [] && "" + SelectText(columns[0]) == SelectText(columns[0]);
    } else {
      SelectListFirst(columns[..n]);
      SelectListLast(columns[1..]);
      assert columns[..n][1..] == columns[1..][..n - 1];
      if n == 1 {
        NothingSelected();
        assert columns[1..][..0] == [];
      }
    }
  }

  lemma {:induction false} ListReads(columns: seq<SelectExpr>, rest: string)
    requires columns != [] && forall i :: 0 <= i < |columns| ==> QuoteFree(columns[i].name)
    requires rest != "" && rest[0] != ','
    ensures ReadExprs(SelectList(columns) + rest) == Some(Parsed(columns, rest))
    decreases |columns|
  {
    hide SelectText, SelectList, ReadExpr, Strip, QuoteFree;
    var first := SelectText(columns[0]);
    SelectListFirst(columns);
    if |columns| == 1 {
      assert SelectList(columns) + rest == first + rest;
      ExprReads(columns[0], rest);
      StripNot(rest, ", ", 0);
      assert [columns[0]] == columns;
    } else {
      var more := SelectList(columns[1..]) + rest;
      assert SelectList(columns) + rest == first + (", " + more);
      ExprReads(columns[0], ", " + more);
      StripOf(", ", more);
      ListReads(columns[1..], rest);
      assert [columns[0]] + columns[1..] == columns;
    }
  }

  lemma SelectStarts(e: SelectExpr)
    ensures SelectText(e) != "" && SelectText(e)[0] != '1'
  {}

  lemma SelectedReads(columns: seq<SelectExpr>, rest: string)
    requires forall i :: 0 <= i < |columns| ==> QuoteFree(columns[i].name)
    requires rest != "" && rest[0] != ','
    ensures ReadSelected((if columns == [] then "1" else SelectList(columns)) + rest) == Some(Parsed(columns, rest))
  {
    hide SelectText, SelectList, ReadExprs, Strip, QuoteFree;
    if columns == [] {
      StripOf("1", rest);
    } else {
      var s := SelectList(columns) + rest;
      SelectListFirst(columns);
      SelectStarts(columns[0]);
      StripNot(s, "1", 0);
      ListReads(columns, rest);
    }
  }

  /** The text behind the object, which starts the WHERE clause if it is not empty. */
  function SnapshotText(scn: Option<nat>): string {
    if scn == None then "" else " AS OF SCN TO_NUMBER(" + ReadSql.Place(scn.value) + ")"
  }

  lemma SnapshotReads(scn: Option<nat>, rest: string)
    requires rest == "" || " WHERE " <= rest
    ensures ReadSnapshot(SnapshotText(scn) + rest) == Some(Parsed(scn, rest))
  {
    hide Decimal, ParseNumber, Strip;
    match scn
    case None =>
      assert SnapshotText(scn) + rest == rest;
      NoSnapshot(rest);
    case Some(n) =>
      assert SnapshotText(scn) + rest == " AS OF SCN TO_NUMBER(:b" + (Decimal(n) + (")" + rest));
      StripOf(" AS OF SCN TO_NUMBER(:b", Decimal(n) + (")" + rest));
      NumberReads(n, ")" + rest);
      StripOf(")", rest);
  }

  lemma NoSnapshot(rest: string)
    requires rest == "" || " WHERE " <= rest
    ensures Strip(rest, " AS OF SCN TO_NUMBER(:b") == None
  {
    if rest != "" { StripNot(rest, " AS OF SCN TO_NUMBER(:b", 1); }
  }

  lemma SourceReads(columns: seq<SelectExpr>, owner: string, table: string, scn: Option<nat>, rest: string)
    requires QuoteFree(owner) && QuoteFree(table) && (rest == "" || " WHERE " <= rest)
    ensures ReadSource(columns, " FROM " + Quoted(owner) + "." + Quoted(table) + SnapshotText(scn) + rest)
         == Some(Parsed(ScanHead(columns, owner, table, scn), rest))
  {
    hide Quoted, SnapshotText, ReadEnclosed, ParseName, ReadSnapshot;
    var behind := SnapshotText(scn) + rest;
    assert " FROM " + Quoted(owner) + "." + Quoted(table) + SnapshotText(scn) + rest
        == " FROM " + Quoted(owner) + "." + (Quoted(table) + behind);
    EnclosedReads(" FROM ", owner, ".", Quoted(table) + behind);
    NameReads(table, behind);
    SnapshotReads(scn, rest);
  }

  /** The statement selects the columns in their order from the object of the scan. There is a snapshot exactly if the
      scan has one, and what is bound for it is its number. */
  lemma HeadReads(input: ScanInput, slice: SliceKind)
    requires NamesQuoted(input)
    ensures var (stmt, read) := (StatementOf(input, slice), ReadHead(StatementOf(input, slice).sql));
            && read.Some?
            && read.value.value.columns == input.columns
            && read.value.value.owner == input.owner && read.value.value.table == input.table
            && (read.value.value.scn.Some? <==> input.snapshotScn != "")
            && (read.value.value.scn.Some? ==>
                  TextOfBind(stmt.binds, read.value.value.scn.value) == Some(input.snapshotScn))
            && read.value.rest
               == WhereText(FilterConditions(input.filters, |SnapshotBinds(input)|)
                            + SliceConditions(slice, |SnapshotBinds(input) + FilterBinds(input.filters)|))
  {
    hide WhereText, FilterConditions, SliceConditions, FilterBinds, SliceBinds, Quoted, SelectList, SnapshotText,
         ReadSelected, ReadSource, Strip, QuoteFree, ReadSql.Place;
    var where := WhereText(FilterConditions(input.filters, |SnapshotBinds(input)|)
                           + SliceConditions(slice, |SnapshotBinds(input) + FilterBinds(input.filters)|));
    var list := if input.columns == [] then "1" else SelectList(input.columns);
    var scn := if input.snapshotScn == "" then None else Some(1);
    var source := " FROM " + Quoted(input.owner) + "." + Quoted(input.table) + SnapshotText(scn) + where;
    HeadParts(input, where);
    WhereStarts(FilterConditions(input.filters, |SnapshotBinds(input)|)
                + SliceConditions(slice, |SnapshotBinds(input) + FilterBinds(input.filters)|));
    StripOf("SELECT /* oraduck_scan */ ", list + source);
    assert source[0] == ' ';
    SelectedReads(input.columns, source);
    SourceReads(input.columns, input.owner, input.table, scn, where);
    SnapshotBound(input, slice);
  }

  lemma HeadParts(input: ScanInput, where: string)
    ensures var list := if input.columns == [] then "1" else SelectList(input.columns);
            var scn := if input.snapshotScn == "" then None else Some(1);
            (Head(input) + where
             == "SELECT /* oraduck_scan */ "
                + (list + (" FROM " + Quoted(input.owner) + "." + Quoted(input.table) + SnapshotText(scn) + where)))
  {
    hide SelectList, Quoted, ReadSql.Place;
  }

  lemma {:induction false} WhereStarts(conditions: seq<string>)
    ensures WhereText(conditions) == "" || " WHERE " <= WhereText(conditions)
  {
    if |conditions| > 1 {
      WhereStarts(conditions[..|conditions| - 1]);
      WhereNotEmpty(conditions[..|conditions| - 1]);
    }
  }

  lemma WhereNotEmpty(conditions: seq<string>)
    requires conditions != []
    ensures WhereText(conditions) != ""
  {}

  /** The text bound as number n. */
  function TextOfBind(binds: seq<BindValue>, n: nat): Option<string> {
    if 1 <= n <= |binds| && binds[n - 1].data.TextData? then Some(binds[n - 1].data.chars) else None
  }

  lemma SnapshotBound(input: ScanInput, slice: SliceKind)
    ensures input.snapshotScn != "" ==> TextOfBind(StatementOf(input, slice).binds, 1) == Some(input.snapshotScn)
  {
    hide FilterBinds, SliceBinds, Head, WhereText, FilterConditions, SliceConditions, SqlStringLiteral;
  }

  // The values it returns

  /** How a column is selected, by its type. */
  function SelectExprOf(c: OracleColumn): SelectExpr {
    var t := Upper(c.dataType);
    if "TIMESTAMP" <= t && Contains(t, "WITH LOCAL TIME ZONE") then LocalUtc(c.name)
    else if "TIMESTAMP" <= t && Contains(t, "WITH TIME ZONE") then ZonedUtc(c.name)
    else if t == "ROWID" then RowidChars(c.name)
    else if t == "UROWID" then UrowidChars(c.name)
    else PlainColumn(c.name)
  }

  function SelectExprs(columns: seq<OracleColumn>, projected: seq<nat>): (r: seq<SelectExpr>)
    requires forall i :: 0 <= i < |projected| ==> projected[i] < |columns|
    ensures |r| == |projected|
  {
    seq(|projected|, i requires 0 <= i < |projected| => SelectExprOf(columns[projected[i]]))
  }

  ghost predicate IsLocal(c: OracleColumn) {
    exists p: nat :: IsTimestampName(c.dataType, p, LOCAL_TIME_ZONE)
  }

  datatype Returned = Failed | Nothing | Value(stored: Stored)

  /** What Oracle returns for an expression. SYS_EXTRACT_UTC wants an instant with a zone and returns it without; a cast
      makes one of an instant in the local time zone. */
  ghost function ReturnedBy(e: SelectExpr, columns: seq<OracleColumn>, row: StoredRow): Returned
    requires |row| == |columns|
  {
    var i := Lookup(columns, e.name);
    if i >= |columns| then Failed
    else if row[i] == None then Nothing
    else
      var s := row[i].value;
      match e
      case ZonedUtc(_) => if s.ZonedStored? && !IsLocal(columns[i]) then Value(InstantStored(s.nanos)) else Failed
      case LocalUtc(_) => if s.ZonedStored? then Value(InstantStored(s.nanos)) else Failed
      case _ => Value(s)
  }

  const NANOS_PER_MINUTE: nat := 60 * NANOS_PER_SECOND

  /** What DuckDB decodes from a returned value: of an instant with a zone it would see the time in that zone. */
  function DecodeReturned(c: OracleColumn, other: Database, s: Stored): FilterValues.Value {
    match s
    case ZonedStored(nanos, zone) => Time((nanos + zone * NANOS_PER_MINUTE) / 1000)
    case _ => ReadValue(c, other.numbers, other.nearest, s)
  }

  lemma NoSmallLetters(s: string)
    requires forall i :: 0 <= i < |s| ==> !('a' <= s[i] <= 'z')
    ensures Upper(s) == s
  {}

  /** The type names with zones. */
  lemma ZoneNames(name: string, p: nat, zone: string)
    requires IsTimestampName(name, p, zone)
    ensures zone == LOCAL_TIME_ZONE ==> Upper(name) == name && Contains(name, "WITH LOCAL TIME ZONE")
    ensures zone == TIME_ZONE ==>
              Upper(name) == name && Contains(name, "WITH TIME ZONE") && !Contains(name, "WITH LOCAL TIME ZONE")
    ensures zone == NO_ZONE ==>
              Upper(name) == name && !Contains(name, "WITH TIME ZONE") && !Contains(name, "WITH LOCAL TIME ZONE")
  {
    hide Decimal, Contains, Upper;
    DecimalDigits(p);
    var before := if name == "TIMESTAMP" + zone then "TIMESTAMP" else "TIMESTAMP(" + Decimal(p) + ")";
    assert name == before + zone;
    if zone in {NO_ZONE, TIME_ZONE, LOCAL_TIME_ZONE} {
      NoSmallLetters(name);
      ZoneLetters(name, before, zone);
    }
  }

  lemma ZoneLetters(name: string, before: string, zone: string)
    requires name == before + zone && 'W' !in before && 'L' !in before
    requires zone in {NO_ZONE, TIME_ZONE, LOCAL_TIME_ZONE}
    ensures Contains(name, "WITH LOCAL TIME ZONE") <==> zone == LOCAL_TIME_ZONE
    ensures zone == TIME_ZONE ==> Contains(name, "WITH TIME ZONE")
    ensures zone == NO_ZONE ==> !Contains(name, "WITH TIME ZONE")
  {
    hide Contains;
    if zone == NO_ZONE {
      assert name == before;
      NoLetter(name, "WITH TIME ZONE", 0);
      NoLetter(name, "WITH LOCAL TIME ZONE", 0);
    } else if zone == TIME_ZONE {
      assert 'L' !in name;
      NoLetter(name, "WITH LOCAL TIME ZONE", 5);
      assert name == (before + " ") + "WITH TIME ZONE" + "";
      PartContained(before + " ", "WITH TIME ZONE", "");
    } else {
      assert name == (before + " ") + "WITH LOCAL TIME ZONE" + "";
      PartContained(before + " ", "WITH LOCAL TIME ZONE", "");
    }
  }

  /** What is decoded from the expression by which a column is selected is what DuckDB is to read of it: of an instant
      with a zone, the time in UTC. */
  lemma SelectedIsRead(columns: seq<OracleColumn>, other: Database, row: StoredRow, i: nat)
    requires i < |columns| && NamesFit(columns) && RowStored(columns, row)
    ensures |row| == |columns|
    ensures var (c, r) := (columns[i], ReturnedBy(SelectExprOf(columns[i]), columns, row));
            match row[i]
            case None => r == Nothing && ReadRow(columns, other, row)[i] == None
            case Some(_) => r.Value? && ReadRow(columns, other, row)[i] == Some(DecodeReturned(c, other, r.stored))
  {
    hide NamesFit, ReadValue, Stores, ReadRow, IsLocal, Upper, Contains;
    var c := columns[i];
    LookupFinds(columns, i);
    ReadRowAt(columns, other, row, i);
    if row[i].Some? {
      var s := row[i].value;
      if s.ZonedStored? {
        ZonedSelected(c, s);
        ZonedRead(c, other, s);
      } else {
        OtherSelected(c, s);
      }
    }
  }

  lemma ZonedRead(c: OracleColumn, other: Database, s: Stored)
    requires s.ZonedStored?
    ensures ReadValue(c, other.numbers, other.nearest, s)
         == ReadValue(c, other.numbers, other.nearest, InstantStored(s.nanos))
  {}

  lemma ZonedSelected(c: OracleColumn, s: Stored)
    requires s.ZonedStored? && Stores(c, s)
    ensures SelectExprOf(c) == LocalUtc(c.name) || (SelectExprOf(c) == ZonedUtc(c.name) && !IsLocal(c))
  {
    hide Upper, Contains, IsTimestampName;
    var p: nat :| IsTimestampName(c.dataType, p, TIME_ZONE) || IsTimestampName(c.dataType, p, LOCAL_TIME_ZONE);
    var zone := if IsTimestampName(c.dataType, p, LOCAL_TIME_ZONE) then LOCAL_TIME_ZONE else TIME_ZONE;
    ZoneNames(c.dataType, p, zone);
    NameStarts(c.dataType, p, zone);
    forall q: nat | IsTimestampName(c.dataType, q, LOCAL_TIME_ZONE) ensures SelectExprOf(c) == LocalUtc(c.name) {
      ZoneNames(c.dataType, q, LOCAL_TIME_ZONE);
    }
  }

  lemma OtherSelected(c: OracleColumn, s: Stored)
    requires !s.ZonedStored? && Stores(c, s)
    ensures !SelectExprOf(c).LocalUtc? && !SelectExprOf(c).ZonedUtc?
  {
    hide Contains, IsTimestampName, Pow10, TypeMap.Storable, Upper, SameName;
    if s.InstantStored? && c.dataType != "DATE" {
      var p := StoredPrecision(c, s);
      ZoneNames(c.dataType, p, NO_ZONE);
    } else if s.OtherStored? {
      OtherType(c.dataType);
    } else {
      assert |c.dataType| < 9 || c.dataType[0] == 'B' || c.dataType[0] == 'N';
      NotTimestamp(c.dataType);
    }
  }

  lemma OtherType(t: string)
    ensures "TIMESTAMP" <= Upper(t) ==> |t| >= 9 && SameName(t[..9], "TIMESTAMP")
  {
    if "TIMESTAMP" <= Upper(t) {
      assert Upper(t[..9]) == Upper(t)[..9] == "TIMESTAMP";
      UpperIs(t[..9], "TIMESTAMP");
    }
  }

  lemma NotTimestamp(t: string)
    requires |t| < 9 || t[0] == 'B' || t[0] == 'N'
    ensures !("TIMESTAMP" <= Upper(t))
  {
    if |t| >= 9 { assert Upper(t)[0] == UpperChar(t[0]); }
  }

  /** Column i of the select list of every unit's statement returns what DuckDB is to read of the i-th projected
      column. */
  lemma StatementReturns(input: ScanInput, slice: SliceKind, columns: seq<OracleColumn>, projected: seq<nat>,
                         other: Database, row: StoredRow, i: nat)
    requires NamesFit(columns) && RowStored(columns, row) && QuoteFree(input.owner) && QuoteFree(input.table)
    requires forall k :: 0 <= k < |projected| ==> projected[k] < |columns|
    requires input.columns == SelectExprs(columns, projected) && i < |projected|
    ensures var read := ReadHead(StatementOf(input, slice).sql);
            && |row| == |columns| && read.Some? && |read.value.value.columns| == |projected|
            && var (r, v) := (ReturnedBy(read.value.value.columns[i], columns, row),
                              ReadRow(columns, other, row)[projected[i]]);
               if v == None then r == Nothing
               else r.Value? && v == Some(DecodeReturned(columns[projected[i]], other, r.stored))
  {
    hide ReadHead, StatementOf, ReadRow, SelectExprOf, ReturnedBy, RowStored, DecodeReturned, QuoteFree;
    forall k | 0 <= k < |input.columns| ensures QuoteFree(input.columns[k].name) {
      ExprName(columns[projected[k]]);
      assert QuoteFree(columns[projected[k]].name);
    }
    HeadReads(input, slice);
    SelectedIsRead(columns, other, row, projected[i]);
  }

  lemma ExprName(c: OracleColumn)
    ensures SelectExprOf(c).name == c.name
  {
    hide Upper, Contains;
  }
}
