/** A whole parallel read: the statements of the units answer with the stored rows they select, and the threads hand
    these rows out. In every interleaving each row that passes the filters is handed out once. */
module ParallelRead {
  import opened OracleColumns
  import opened OracleConditions
  import opened FilterSql
  import opened FilterSoundness
  import opened ReadSql
  import opened StatementHead
  import opened UnitQueries
  import opened Numerals
  import opened NumberReading
  import Scan

  /** A row of the table and where it is. */
  datatype TableRow = TableRow(address: RowidSlices.Address, row: StoredRow)

  /** What an object, by its owner and name, holds as of an SCN. */
  type History = (string, string, nat) -> seq<TableRow>

  /** Oracle's part in a read: what its objects hold, at which SCN the statement of each unit starts, how it compares
      and how it hashes ROWIDs. */
  datatype Oracle = Oracle(history: History, starts: seq<nat>, other: Database, hashing: Hashing)

  /** What a statement that starts at SCN `now` reads: the object that it names, as of the SCN bound in it if it names
      one. None for an error. */
  function Content(stmt: Statement, history: History, now: nat): Option<seq<TableRow>> {
    match ReadHead(stmt.sql)
    case None => None
    case Some(read) =>
      var head := read.value;
      match head.scn
      case None => Some(history(head.owner, head.table, now))
      case Some(n) =>
        match TextOfBind(stmt.binds, n)
        case None => None
        case Some(text) =>
          if text == "" || !AllDecimal(text) then None else Some(history(head.owner, head.table, NumberOf(text)))
  }

  /** The table that is read: the object as of the snapshot; without one, an object that holds the same at the start of
      each statement. */
  ghost predicate Reads(input: ScanInput, oracle: Oracle, table: seq<TableRow>) {
    if input.snapshotScn == "" then
      forall u :: 0 <= u < |oracle.starts| ==> oracle.history(input.owner, input.table, oracle.starts[u]) == table
    else
      AllDecimal(input.snapshotScn) && oracle.history(input.owner, input.table, NumberOf(input.snapshotScn)) == table
  }

  /** Every unit's statement reads this table. */
  lemma SameContent(input: ScanInput, slice: SliceKind, oracle: Oracle, u: nat, table: seq<TableRow>)
    requires NamesQuoted(input) && u < |oracle.starts| && Reads(input, oracle, table)
    ensures Content(StatementOf(input, slice), oracle.history, oracle.starts[u]) == Some(table)
  {
    hide StatementOf, ReadHead, NumberOf;
    HeadReads(input, slice);
  }

  ghost predicate TableFits(table: seq<TableRow>, columns: seq<OracleColumn>) {
    forall k :: 0 <= k < |table| ==> table[k].address.Valid() && RowStored(columns, table[k].row)
  }

  /** The rows that a statement yields, by their number in what it reads: those that it selects, in any order. */
  ghost predicate Answers(answer: seq<nat>, stmt: Statement, columns: seq<OracleColumn>, charset: string,
                          oracle: Oracle, now: nat)
  {
    match Content(stmt, oracle.history, now)
    case None => false
    case Some(table) =>
      && (forall k <- answer :: k < |table|)
      && forall k: nat :: k < |table| && |table[k].row| == |columns| ==>
           multiset(answer)[k] == if Selects(stmt, columns, charset, oracle.other, oracle.hashing, table[k].row,
                                             table[k].address.Pos()) then 1 else 0
  }

  /** The answers of all units, each started at its SCN. */
  ghost predicate AllAnswer(answers: seq<seq<nat>>, input: ScanInput, slices: seq<SliceKind>,
                            columns: seq<OracleColumn>, charset: string, oracle: Oracle)
  {
    && |answers| == |slices| == |oracle.starts|
    && forall u :: 0 <= u < |answers| ==>
         Answers(answers[u], StatementOf(input, slices[u]), columns, charset, oracle, oracle.starts[u])
  }

  function PlanFor(answers: seq<seq<nat>>): (plan: Scan.Plan)
    ensures |plan| == |answers| && forall u :: 0 <= u < |answers| ==> plan[u] == |answers[u]|
  {
    seq(|answers|, u requires 0 <= u < |answers| => |answers[u]|)
  }

  /** How often row k of the table is among the rows emitted from the first n rows of a unit. */
  function FromUnit(emitted: multiset<Scan.UnitRow>, unit: nat, answer: seq<nat>, n: nat, k: nat): nat
    requires n <= |answer|
  {
    if n == 0 then 0
    else FromUnit(emitted, unit, answer, n - 1, k)
         + if answer[n - 1] == k then emitted[Scan.UnitRow(unit, n - 1)] else 0
  }

  /** How often row k of the table is among the rows emitted from the first m units. */
  function Delivered(emitted: multiset<Scan.UnitRow>, answers: seq<seq<nat>>, m: nat, k: nat): nat
    requires m <= |answers|
  {
    if m == 0 then 0
    else Delivered(emitted, answers, m - 1, k) + FromUnit(emitted, m - 1, answers[m - 1], |answers[m - 1]|, k)
  }

  lemma {:induction false} UnitCount(emitted: multiset<Scan.UnitRow>, unit: nat, answer: seq<nat>, n: nat, k: nat,
                                     ended: bool)
    requires n <= |answer|
    requires forall i: nat :: i < n ==> emitted[Scan.UnitRow(unit, i)] <= 1
    requires ended ==> forall i: nat :: i < n ==> emitted[Scan.UnitRow(unit, i)] == 1
    ensures FromUnit(emitted, unit, answer, n, k) <= multiset(answer[..n])[k]
    ensures ended ==> FromUnit(emitted, unit, answer, n, k) == multiset(answer[..n])[k]
  {
    if n > 0 {
      UnitCount(emitted, unit, answer, n - 1, k, ended);
      assert answer[..n] == answer[..n - 1] + [answer[n - 1]];
    }
  }

  lemma AsMany(answers: seq<seq<nat>>, input: ScanInput, slices: seq<SliceKind>, columns: seq<OracleColumn>,
               charset: string, oracle: Oracle)
    requires AllAnswer(answers, input, slices, columns, charset, oracle)
    ensures |answers| == |slices|
  {}

  /** Rows are emitted as often as the units' statements select them. */
  lemma {:induction false} CountDelivered(emitted: multiset<Scan.UnitRow>, answers: seq<seq<nat>>, m: nat,
                                          table: seq<TableRow>, k: nat, input: ScanInput, slices: seq<SliceKind>,
                                          columns: seq<OracleColumn>, charset: string, oracle: Oracle, ended: bool)
    requires NamesQuoted(input) && Reads(input, oracle, table) && TableFits(table, columns)
    requires k < |table| && |table[k].row| == |columns|
    requires AllAnswer(answers, input, slices, columns, charset, oracle) && m <= |answers|
    requires forall r: Scan.UnitRow :: emitted[r] <= Scan.Planned(PlanFor(answers), r)
    requires ended ==> forall r: Scan.UnitRow :: emitted[r] == Scan.Planned(PlanFor(answers), r)
    ensures var selecting := Selecting(input, slices[..m], columns, charset, oracle.other, oracle.hashing, table[k].row,
                                       table[k].address.Pos());
            && Delivered(emitted, answers, m, k) <= selecting
            && (ended ==> Delivered(emitted, answers, m, k) == selecting)
  {
    hide TableFits, Selects, StatementOf, RowStored, Reads, AllAnswer, FromUnit, NamesQuoted;
    if m > 0 {
      var u := m - 1;
      CountDelivered(emitted, answers, u, table, k, input, slices, columns, charset, oracle, ended);
      UnitDelivered(emitted, answers, u, table, k, input, slices, columns, charset, oracle, ended);
      AsMany(answers, input, slices, columns, charset, oracle);
      assert slices[..m][..m - 1] == slices[..m - 1] && slices[..m][m - 1] == slices[m - 1];
    }
  }

  /** The same for one unit. */
  lemma UnitDelivered(emitted: multiset<Scan.UnitRow>, answers: seq<seq<nat>>, u: nat, table: seq<TableRow>, k: nat,
                      input: ScanInput, slices: seq<SliceKind>, columns: seq<OracleColumn>, charset: string,
                      oracle: Oracle, ended: bool)
    requires NamesQuoted(input) && Reads(input, oracle, table) && k < |table| && |table[k].row| == |columns|
    requires AllAnswer(answers, input, slices, columns, charset, oracle) && u < |answers|
    requires forall r: Scan.UnitRow :: emitted[r] <= Scan.Planned(PlanFor(answers), r)
    requires ended ==> forall r: Scan.UnitRow :: emitted[r] == Scan.Planned(PlanFor(answers), r)
    ensures |slices| == |answers|
    ensures var selected := if Selects(StatementOf(input, slices[u]), columns, charset, oracle.other, oracle.hashing,
                                       table[k].row, table[k].address.Pos()) then 1 else 0;
            && FromUnit(emitted, u, answers[u], |answers[u]|, k) <= selected
            && (ended ==> FromUnit(emitted, u, answers[u], |answers[u]|, k) == selected)
  {
    hide Selects, StatementOf, Reads, FromUnit, NamesQuoted;
    var answer := answers[u];
    assert Answers(answer, StatementOf(input, slices[u]), columns, charset, oracle, oracle.starts[u]);
    SameContent(input, slices[u], oracle, u, table);
    forall i: nat | i < |answer|
      ensures emitted[Scan.UnitRow(u, i)] <= 1 && (ended ==> emitted[Scan.UnitRow(u, i)] == 1)
    {
      assert Scan.Planned(PlanFor(answers), Scan.UnitRow(u, i)) == 1;
    }
    UnitCount(emitted, u, answer, |answer|, k, ended);
    assert answer[..|answer|] == answer;
  }

  /** At every moment of every interleaving the rows emitted are rows that the statements select; when all threads have
      ended they are all of them. */
  lemma EmittedAsSelected(answers: seq<seq<nat>>, run: seq<Scan.State>, i: nat, table: seq<TableRow>, k: nat,
                          input: ScanInput, slices: seq<SliceKind>, columns: seq<OracleColumn>, charset: string,
                          oracle: Oracle)
    requires NamesQuoted(input) && Reads(input, oracle, table) && TableFits(table, columns) && k < |table|
    requires AllAnswer(answers, input, slices, columns, charset, oracle)
    requires Scan.IsRun(PlanFor(answers), run) && i < |run|
    ensures |table[k].row| == |columns|
    ensures var delivered := Delivered(run[i].shared.emitted, answers, |answers|, k);
            var selecting := Selecting(input, slices, columns, charset, oracle.other, oracle.hashing, table[k].row,
                                       table[k].address.Pos());
            && delivered <= selecting
            && (Scan.AllEnded(run[i]) && run[i].threads != [] ==> delivered == selecting)
    ensures forall r: Scan.UnitRow :: run[i].shared.emitted[r] > 0 ==> r.unit < |answers| && r.index < |answers[r.unit]|
  {
    hide Scan.IsRun, Scan.AllEnded, Delivered, Selecting, AllAnswer, RowStored;
    RowLength(columns, table[k].row);
    var ended := Scan.AllEnded(run[i]) && run[i].threads != [];
    forall r: Scan.UnitRow
      ensures run[i].shared.emitted[r] <= Scan.Planned(PlanFor(answers), r)
      ensures ended ==> run[i].shared.emitted[r] == Scan.Planned(PlanFor(answers), r)
    {
      Scan.ExactlyOnce(PlanFor(answers), run, i, r);
    }
    AsMany(answers, input, slices, columns, charset, oracle);
    CountDelivered(run[i].shared.emitted, answers, |answers|, table, k, input, slices, columns, charset, oracle,
                   ended);
    assert slices[..|answers|] == slices;
  }

  /** A scan of ROWID slices, in every interleaving of any number of threads: no row is handed out that is not in a
      listed object or does not pass all filters, and none twice; when all threads have ended, each row of the listed
      objects that passes the filters has been handed out once. */
  lemma EachRowDelivered(answers: seq<seq<nat>>, run: seq<Scan.State>, i: nat, table: seq<TableRow>, k: nat,
                         input: ScanInput, slices: seq<RowidSlices.Slice>, extents: seq<RowidSlices.Extent>,
                         nodes: seq<FilterNode>, columns: seq<OracleColumn>, charset: string, oracle: Oracle)
    requires NamesQuoted(input) && Reads(input, oracle, table) && TableFits(table, columns)
    requires k < |table| && NamesFit(columns)
    requires FromNodes(input, nodes, columns, charset) && RowidSlices.EachReadOnce(slices, extents)
    requires AllAnswer(answers, input, RangesOf(slices), columns, charset, oracle)
    requires Scan.IsRun(PlanFor(answers), run) && i < |run|
    ensures var delivered := Delivered(run[i].shared.emitted, answers, |answers|, k);
            var listed := RowidSlices.Listed(extents, table[k].address.obj);
            var wanted := if AllTrue(nodes, columns, oracle.other, table[k].row) && listed then 1 else 0;
            && delivered <= wanted
            && (Scan.AllEnded(run[i]) && run[i].threads != [] ==> delivered == wanted)
  {
    hide Scan.IsRun, Scan.AllEnded, Delivered, Selecting, AllAnswer, RowStored, NamesFit, FromNodes, AllTrue,
         RowidSlices.Listed, RowidSlices.EachReadOnce;
    EmittedAsSelected(answers, run, i, table, k, input, RangesOf(slices), columns, charset, oracle);
    EveryRowOnce(input, slices, extents, nodes, columns, charset, oracle.other, oracle.hashing, table[k].row,
                 table[k].address);
  }

  /** The same for hash slices, in which every row of the table is wanted that passes all filters. */
  lemma EachRowDeliveredByHash(answers: seq<seq<nat>>, run: seq<Scan.State>, i: nat, table: seq<TableRow>, k: nat,
                               input: ScanInput, buckets: Machine.uint32, nodes: seq<FilterNode>,
                               columns: seq<OracleColumn>, charset: string, oracle: Oracle)
    requires NamesQuoted(input) && Reads(input, oracle, table) && TableFits(table, columns)
    requires k < |table| && NamesFit(columns)
    requires FromNodes(input, nodes, columns, charset)
    requires 0 <= oracle.hashing(table[k].address.Pos(), (buckets as int) - 1) < buckets
    requires AllAnswer(answers, input, Buckets(buckets, buckets), columns, charset, oracle)
    requires Scan.IsRun(PlanFor(answers), run) && i < |run|
    ensures var delivered := Delivered(run[i].shared.emitted, answers, |answers|, k);
            var wanted := if AllTrue(nodes, columns, oracle.other, table[k].row) then 1 else 0;
            && delivered <= wanted
            && (Scan.AllEnded(run[i]) && run[i].threads != [] ==> delivered == wanted)
  {
    hide Scan.IsRun, Scan.AllEnded, Delivered, Selecting, AllAnswer, RowStored, NamesFit, FromNodes, AllTrue;
    EmittedAsSelected(answers, run, i, table, k, input, Buckets(buckets, buckets), columns, charset, oracle);
    EveryRowInOneBucket(input, buckets, nodes, columns, charset, oracle.other, oracle.hashing, table[k].row,
                 table[k].address.Pos());
  }
}
