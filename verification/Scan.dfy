/** A parallel scan: threads take work units from a shared counter, run their cursor on each unit and hand out
    its rows in chunks. Every access to shared state is one step; any thread may take the next step. */
module Scan {
  import opened NumberReading

  const CHUNK: nat := 2048

  /** Row number `index` of a work unit. */
  datatype UnitRow = UnitRow(unit: nat, index: nat)

  /** A plan gives the number of rows that each unit's statement yields. */
  type Plan = seq<nat>

  function UnitRows(plan: Plan, unit: nat): (rows: seq<UnitRow>)
    requires unit < |plan|
    ensures |rows| == plan[unit]
  {
    seq(plan[unit], i requires 0 <= i < plan[unit] => UnitRow(unit, i))
  }

  /** Where a thread is: between two calls of the scan function, filling a chunk, loading the next batch
      (fetching, claiming a unit, getting a session for it, running its statement), on its way out, or told by
      an empty chunk that it has nothing more to do. */
  datatype Pc = Idle | Filling | Next | Claim | Take(unit: nat) | Login(unit: nat) | Run(unit: nat) | Leaving | Ended

  /** One thread: its session; its cursor's rows not yet fetched and whether OCI has reported the end; the last
      batch and the first of its rows not yet returned; the chunk under way. */
  datatype Local = Local(
    pc: Pc,
    session: Option<nat>,
    pending: seq<UnitRow>,
    done: bool,
    reading: bool,
    batch: seq<UnitRow>,
    batchNext: nat,
    finished: bool,
    chunk: seq<UnitRow>)

  /** What the threads share: the unit counter, the planning session, the number of logins so far, and the rows
      handed out. */
  datatype Shared = Shared(nextUnit: nat, spare: Option<nat>, logins: nat, emitted: multiset<UnitRow>)

  datatype State = State(shared: Shared, threads: seq<Local>)

  const START: Local := Local(Idle, None, [], false, false, [], 0, false, [])

  /** The planning session is the first login and is spare, unless there is nothing to read. */
  predicate Init(plan: Plan, s: State) {
    && s.shared == Shared(0, if plan == [] then None else Some(0), 1, multiset{})
    && forall t :: 0 <= t < |s.threads| ==> s.threads[t] == START
  }

  /** What OCI does in a fetch: k rows, with the end of the data reported or not. */
  datatype Fetch = Fetch(rows: nat, end: bool)

  /** A fetch brings at least one row while there are any; the end comes with the last rows or after them. */
  predicate FetchAllowed(l: Local, f: Fetch) {
    && f.rows <= |l.pending|
    && (l.pending != [] ==> f.rows > 0)
    && (f.end ==> f.rows == |l.pending|)
    && (f.rows == 0 ==> f.end)
  }

  predicate CanStep(s: State, t: nat, f: Fetch) {
    t < |s.threads| && s.threads[t].pc != Ended && FetchAllowed(s.threads[t], f)
  }

  /** Fetch of the cursor: nothing more once it has seen the end. */
  function Fetched(l: Local, f: Fetch): Local
    requires FetchAllowed(l, f)
  {
    if l.done || f.rows == 0 then l.(reading := false, done := l.done || f.end, pc := Claim)
    else l.(batch := l.pending[..f.rows], batchNext := 0, pending := l.pending[f.rows..], done := f.end, pc := Filling)
  }

  /** Rows of the current batch copied into the chunk. */
  function Copied(l: Local): Local
    requires l.batchNext < |l.batch| && |l.chunk| < CHUNK
  {
    var count := if CHUNK - |l.chunk| <= |l.batch| - l.batchNext then CHUNK - |l.chunk| else |l.batch| - l.batchNext;
    l.(chunk := l.chunk + l.batch[l.batchNext..l.batchNext + count], batchNext := l.batchNext + count)
  }

  /** What a thread does in one step, to itself and to the shared state. */
  datatype Turn = Turn(shared: Shared, local: Local)

  /** The chunk leaves the scan; an empty one ends the thread. */
  function Returned(g: Shared, l: Local): Turn {
    Turn(g.(emitted := g.emitted + multiset(l.chunk)), l.(chunk := [], pc := if l.chunk == [] then Ended else Idle))
  }

  function TakeTurn(plan: Plan, g: Shared, l: Local, f: Fetch): Turn
    requires FetchAllowed(l, f)
  {
    match l.pc
    case Idle => Turn(g, l.(pc := Filling))
    case Filling =>
      if |l.chunk| >= CHUNK || l.finished then Returned(g, l)
      else if l.batchNext >= |l.batch| then Turn(g, l.(pc := Next))
      else Turn(g, Copied(l))
    case Next => Turn(g, if l.reading then Fetched(l, f) else l.(pc := Claim))
    case Claim =>
      var g' := g.(nextUnit := g.nextUnit + 1);
      if g.nextUnit >= |plan| then
        Turn(g', l.(pending := [], done := false, session := None, finished := true, pc := Leaving))
      else
        Turn(g', l.(pc := if l.session == None then Take(g.nextUnit) else Run(g.nextUnit)))
    case Take(unit) =>
      if g.spare == None then Turn(g, l.(pc := Login(unit)))
      else Turn(g.(spare := None), l.(session := g.spare, pc := Run(unit)))
    case Login(unit) =>
      Turn(g.(logins := g.logins + 1), l.(session := Some(g.logins), pc := Run(unit)))
    case Run(unit) =>
      Turn(g, l.(pending := if unit < |plan| then UnitRows(plan, unit) else [], done := false, reading := true,
                 pc := Next))
    case Leaving => Returned(g, l)
    case Ended => Turn(g, l)
  }

  /** One step of thread t. */
  function After(plan: Plan, s: State, t: nat, f: Fetch): State
    requires CanStep(s, t, f)
  {
    var turn := TakeTurn(plan, s.shared, s.threads[t], f);
    State(turn.shared, s.threads[t := turn.local])
  }

  // Conservation, row by row

  function Times(rows: seq<UnitRow>, r: UnitRow): nat {
    multiset(rows)[r]
  }

  /** 1 for the rows of the plan. */
  function Planned(plan: Plan, r: UnitRow): nat {
    if r.unit < |plan| && r.index < plan[r.unit] then 1 else 0
  }

  /** 1 for the rows of the units from `unit` on. */
  function Untaken(plan: Plan, unit: nat, r: UnitRow): nat {
    if unit <= r.unit then Planned(plan, r) else 0
  }

  predicate HasUnit(pc: Pc) {
    pc.Take? || pc.Login? || pc.Run?
  }

  /** How often a thread has a row: written, fetched, still in its cursor, or of a unit it has claimed. */
  function Held(plan: Plan, l: Local, r: UnitRow): nat
    requires l.batchNext <= |l.batch|
  {
    Times(l.chunk, r) + Times(l.batch[l.batchNext..], r) + (if l.reading then Times(l.pending, r) else 0)
    + (if HasUnit(l.pc) && l.pc.unit == r.unit then Planned(plan, r) else 0)
  }

  ghost predicate BatchesFit(threads: seq<Local>) {
    forall t :: 0 <= t < |threads| ==> threads[t].batchNext <= |threads[t].batch|
  }

  function HeldByAll(plan: Plan, threads: seq<Local>, r: UnitRow): nat
    requires BatchesFit(threads)
  {
    if threads == [] then 0
    else HeldByAll(plan, threads[..|threads| - 1], r) + Held(plan, threads[|threads| - 1], r)
  }

  predicate Exhausted(l: Local) {
    l.batchNext == |l.batch| && !l.finished
  }

  predicate LocalInv(plan: Plan, l: Local) {
    && l.batchNext <= |l.batch| && |l.chunk| <= CHUNK
    && (l.done ==> l.pending == [])
    && (l.reading ==> l.session != None)
    && (l.finished ==> !l.reading && l.batchNext == |l.batch| && l.session == None)
    && match l.pc
       case Idle => l.chunk == []
       case Filling => true
       case Next => Exhausted(l)
       case Claim => Exhausted(l) && !l.reading
       case Take(unit) => Exhausted(l) && !l.reading && l.session == None && unit < |plan|
       case Login(unit) => Exhausted(l) && !l.reading && l.session == None && unit < |plan|
       case Run(unit) => Exhausted(l) && !l.reading && l.session != None && unit < |plan|
       case Leaving => l.finished
       case Ended => l.finished && l.chunk == []
  }

  /** Every row of the plan is somewhere exactly once, and no other row is anywhere. */
  ghost predicate Conserved(plan: Plan, s: State)
    requires BatchesFit(s.threads)
  {
    forall r: UnitRow ::
      s.shared.emitted[r] + HeldByAll(plan, s.threads, r) + Untaken(plan, s.shared.nextUnit, r) == Planned(plan, r)
  }

  /** No session is used twice: the spare one and the ones the threads hold are all different. */
  ghost predicate SessionsApart(s: State) {
    && (s.shared.spare != None ==> s.shared.spare.value < s.shared.logins)
    && (forall t :: 0 <= t < |s.threads| && s.threads[t].session != None ==>
          s.threads[t].session.value < s.shared.logins && s.threads[t].session != s.shared.spare)
    && (forall t, u :: 0 <= t < u < |s.threads| && s.threads[t].session != None ==>
          s.threads[t].session != s.threads[u].session)
  }

  ghost predicate Inv(plan: Plan, s: State) {
    && (forall t :: 0 <= t < |s.threads| ==>
          LocalInv(plan, s.threads[t]) && (s.threads[t].finished ==> s.shared.nextUnit > |plan|))
    && BatchesFit(s.threads) && Conserved(plan, s)
    && SessionsApart(s)
  }

  lemma {:induction false} NothingHeld(plan: Plan, threads: seq<Local>, r: UnitRow)
    requires forall t :: 0 <= t < |threads| ==> threads[t] == START
    ensures BatchesFit(threads) && HeldByAll(plan, threads, r) == 0
  {
    if threads != [] { NothingHeld(plan, threads[..|threads| - 1], r); }
  }

  lemma InitInv(plan: Plan, s: State)
    requires Init(plan, s)
    ensures Inv(plan, s)
  {
    hide HeldByAll;
    forall r: UnitRow
      ensures BatchesFit(s.threads) && HeldByAll(plan, s.threads, r) == 0
    {
      NothingHeld(plan, s.threads, r);
    }
  }

  /** Replacing one thread changes what all of them hold by the difference. */
  lemma {:induction false} HeldAfterMove(plan: Plan, threads: seq<Local>, t: nat, l: Local, r: UnitRow)
    requires BatchesFit(threads) && t < |threads| && l.batchNext <= |l.batch|
    ensures BatchesFit(threads[t := l])
    ensures HeldByAll(plan, threads[t := l], r) + Held(plan, threads[t], r)
         == HeldByAll(plan, threads, r) + Held(plan, l, r)
  {
    hide Held;
    var n := |threads| - 1;
    if t == n {
      assert threads[t := l][..n] == threads[..n];
    } else {
      HeldAfterMove(plan, threads[..n], t, l, r);
      assert threads[t := l][..n] == threads[..n][t := l];
    }
  }

  lemma TimesSplit(s: seq<UnitRow>, t: seq<UnitRow>, r: UnitRow)
    ensures Times(s + t, r) == Times(s, r) + Times(t, r)
  {}

  lemma CopyHeld(plan: Plan, l: Local, r: UnitRow)
    requires l.batchNext < |l.batch| && |l.chunk| < CHUNK
    ensures Copied(l).batchNext <= |Copied(l).batch| && Held(plan, Copied(l), r) == Held(plan, l, r)
  {
    hide Times;
    var i, j := l.batchNext, Copied(l).batchNext;
    TimesSplit(l.chunk, l.batch[i..j], r);
    TimesSplit(l.batch[i..j], l.batch[j..], r);
    assert l.batch[i..] == l.batch[i..j] + l.batch[j..];
  }

  lemma FetchHeld(plan: Plan, l: Local, f: Fetch, r: UnitRow)
    requires FetchAllowed(l, f) && l.pc.Next? && l.reading && l.batchNext == |l.batch| && (l.done ==> l.pending == [])
    ensures Fetched(l, f).batchNext <= |Fetched(l, f).batch| && Held(plan, Fetched(l, f), r) == Held(plan, l, r)
  {
    hide Times;
    TimesNone(r);
    assert l.batch[l.batchNext..] == [];
    if !l.done && f.rows > 0 {
      var batch, rest := l.pending[..f.rows], l.pending[f.rows..];
      TimesSplit(batch, rest, r);
      assert l.pending == batch + rest && batch[0..] == batch;
    }
  }

  lemma TimesNone(r: UnitRow)
    ensures Times([], r) == 0
  {}

  lemma {:induction false} UnitRowsOnce(plan: Plan, unit: nat, r: UnitRow)
    requires unit < |plan|
    ensures Times(UnitRows(plan, unit), r) == if r.unit == unit then Planned(plan, r) else 0
  {
    var rows := UnitRows(plan, unit);
    RowsOnce(rows, unit, plan[unit], r);
  }

  lemma {:induction false} RowsOnce(rows: seq<UnitRow>, unit: nat, n: nat, r: UnitRow)
    requires |rows| == n && forall i :: 0 <= i < n ==> rows[i] == UnitRow(unit, i)
    ensures Times(rows, r) == if r.unit == unit && r.index < n then 1 else 0
  {
    if n > 0 {
      RowsOnce(rows[..n - 1], unit, n - 1, r);
      assert rows == rows[..n - 1] + [rows[n - 1]];
    }
  }

  lemma RunHeld(plan: Plan, l: Local, r: UnitRow)
    requires l.pc.Run? && l.pc.unit < |plan| && l.batchNext <= |l.batch| && !l.reading
    ensures Held(plan, l.(pending := UnitRows(plan, l.pc.unit), done := false, reading := true, pc := Next), r)
         == Held(plan, l, r)
  {
    hide UnitRows, Times;
    UnitRowsOnce(plan, l.pc.unit, r);
  }

  lemma FetchLocal(plan: Plan, l: Local, f: Fetch)
    requires LocalInv(plan, l) && l.pc.Next? && l.reading && FetchAllowed(l, f)
    ensures LocalInv(plan, Fetched(l, f))
  {}

  lemma CopyLocal(plan: Plan, l: Local)
    requires LocalInv(plan, l) && l.pc.Filling? && l.batchNext < |l.batch| && |l.chunk| < CHUNK
    ensures LocalInv(plan, Copied(l))
  {}

  lemma TurnLocal(plan: Plan, g: Shared, l: Local, f: Fetch)
    requires FetchAllowed(l, f) && LocalInv(plan, l)
    ensures LocalInv(plan, TakeTurn(plan, g, l, f).local)
  {
    hide UnitRows, Copied, Fetched;
    if l.pc.Filling? && |l.chunk| < CHUNK && !l.finished && l.batchNext < |l.batch| {
      CopyLocal(plan, l);
    } else if l.pc.Next? && l.reading {
      FetchLocal(plan, l, f);
    }
  }

  /** A step of one thread: what it holds, what is emitted and what nobody has taken add up as before. */
  lemma TurnHeld(plan: Plan, g: Shared, l: Local, f: Fetch, r: UnitRow)
    requires FetchAllowed(l, f) && LocalInv(plan, l)
    ensures var turn := TakeTurn(plan, g, l, f);
            && l.batchNext <= |l.batch| && turn.local.batchNext <= |turn.local.batch|
            && turn.shared.emitted[r] + Held(plan, turn.local, r) + Untaken(plan, turn.shared.nextUnit, r)
            == g.emitted[r] + Held(plan, l, r) + Untaken(plan, g.nextUnit, r)
  {
    hide Copied, Fetched, UnitRows, Times, Planned, FetchAllowed;
    TimesNone(r);
    if l.pc.Filling? && |l.chunk| < CHUNK && !l.finished && l.batchNext < |l.batch| {
      CopyHeld(plan, l, r);
    } else if l.pc.Next? && l.reading {
      FetchHeld(plan, l, f, r);
    } else if l.pc.Run? {
      RunHeld(plan, l, r);
    } else if l.pc.Claim? {
      NotPlanned(plan, r);
    } else if l.pc.Filling? || l.pc.Leaving? {
      TimesIs(l.chunk, r);
    }
  }

  lemma NotPlanned(plan: Plan, r: UnitRow)
    ensures r.unit >= |plan| ==> Planned(plan, r) == 0
  {}

  lemma TimesIs(s: seq<UnitRow>, r: UnitRow)
    ensures Times(s, r) == multiset(s)[r]
  {}

  /** A session changes hands only from the spare to one thread, or from a new login. */
  lemma TurnSessions(plan: Plan, g: Shared, l: Local, f: Fetch)
    requires FetchAllowed(l, f) && LocalInv(plan, l)
    ensures var turn := TakeTurn(plan, g, l, f);
            var (g', l') := (turn.shared, turn.local);
            || (g'.spare == g.spare && g'.logins == g.logins && (l'.session == l.session || l'.session == None))
            || (g'.spare == None && g'.logins == g.logins && l'.session == g.spare)
            || (g'.spare == g.spare && g'.logins == g.logins + 1 && l'.session == Some(g.logins))
    ensures TakeTurn(plan, g, l, f).shared.nextUnit >= g.nextUnit
    ensures TakeTurn(plan, g, l, f).local.finished && !l.finished
        ==> TakeTurn(plan, g, l, f).shared.nextUnit > |plan|
  {
    hide UnitRows;
  }

  lemma StepSessions(plan: Plan, s: State, t: nat, f: Fetch)
    requires CanStep(s, t, f) && LocalInv(plan, s.threads[t]) && SessionsApart(s)
    ensures SessionsApart(After(plan, s, t, f))
  {
    hide TakeTurn, LocalInv;
    TurnSessions(plan, s.shared, s.threads[t], f);
  }

  lemma StepConserved(plan: Plan, s: State, t: nat, f: Fetch)
    requires CanStep(s, t, f) && LocalInv(plan, s.threads[t]) && BatchesFit(s.threads) && Conserved(plan, s)
    ensures BatchesFit(After(plan, s, t, f).threads) && Conserved(plan, After(plan, s, t, f))
  {
    hide TakeTurn, LocalInv, Held, HeldByAll, FetchAllowed, Untaken, Planned;
    var turn := TakeTurn(plan, s.shared, s.threads[t], f);
    forall r: UnitRow
      ensures turn.local.batchNext <= |turn.local.batch| && BatchesFit(s.threads[t := turn.local])
      ensures turn.shared.emitted[r] + HeldByAll(plan, s.threads[t := turn.local], r)
            + Untaken(plan, turn.shared.nextUnit, r) == Planned(plan, r)
    {
      TurnHeld(plan, s.shared, s.threads[t], f, r);
      HeldAfterMove(plan, s.threads, t, turn.local, r);
    }
    TurnHeld(plan, s.shared, s.threads[t], f, UnitRow(0, 0));
  }

  /** What every step keeps. */
  lemma StepInv(plan: Plan, s: State, t: nat, f: Fetch)
    requires Inv(plan, s) && CanStep(s, t, f)
    ensures Inv(plan, After(plan, s, t, f))
  {
    hide TakeTurn, LocalInv, Conserved, SessionsApart, FetchAllowed;
    TurnLocal(plan, s.shared, s.threads[t], f);
    TurnSessions(plan, s.shared, s.threads[t], f);
    StepSessions(plan, s, t, f);
    StepConserved(plan, s, t, f);
  }

  // Whole runs

  ghost predicate Step(plan: Plan, s: State, s': State) {
    exists t: nat, f: Fetch :: CanStep(s, t, f) && s' == After(plan, s, t, f)
  }

  ghost predicate IsRun(plan: Plan, run: seq<State>) {
    |run| > 0 && Init(plan, run[0]) && forall i :: 0 <= i < |run| - 1 ==> Step(plan, run[i], run[i + 1])
  }

  lemma {:induction false} RunInv(plan: Plan, run: seq<State>, i: nat)
    requires IsRun(plan, run) && i < |run|
    ensures Inv(plan, run[i])
  {
    hide Inv, Init, After;
    if i == 0 {
      InitInv(plan, run[0]);
    } else {
      RunInv(plan, run, i - 1);
      var s, s' := run[i - 1], run[i];
      assert Step(plan, run[i - 1], run[i - 1 + 1]);
      var t: nat, f: Fetch :| CanStep(s, t, f) && s' == After(plan, s, t, f);
      StepInv(plan, s, t, f);
    }
  }

  ghost predicate AllEnded(s: State) {
    forall t :: 0 <= t < |s.threads| ==> s.threads[t].pc.Ended?
  }

  lemma {:induction false} NothingHeldAtEnd(plan: Plan, threads: seq<Local>, r: UnitRow)
    requires forall t :: 0 <= t < |threads| ==> LocalInv(plan, threads[t]) && threads[t].pc.Ended?
    ensures BatchesFit(threads) && HeldByAll(plan, threads, r) == 0
  {
    if threads != [] {
      NothingHeldAtEnd(plan, threads[..|threads| - 1], r);
      EndedHoldsNothing(plan, threads[|threads| - 1], r);
    }
  }

  lemma EndedHoldsNothing(plan: Plan, l: Local, r: UnitRow)
    requires LocalInv(plan, l) && l.pc.Ended?
    ensures l.batchNext <= |l.batch| && Held(plan, l, r) == 0
  {}

  /** A thread is told that there is nothing more only when no unit is left to take, and it then holds no row
      and no session. */
  lemma EmptyChunk(plan: Plan, run: seq<State>, i: nat, t: nat)
    requires IsRun(plan, run) && i < |run| && t < |run[i].threads| && run[i].threads[t].pc.Ended?
    ensures run[i].shared.nextUnit > |plan| && run[i].threads[t].session == None
    ensures forall r: UnitRow :: run[i].threads[t].batchNext <= |run[i].threads[t].batch|
                          && Held(plan, run[i].threads[t], r) == 0
  {
    hide IsRun, Held;
    RunInv(plan, run, i);
    forall r: UnitRow
      ensures run[i].threads[t].batchNext <= |run[i].threads[t].batch| && Held(plan, run[i].threads[t], r) == 0
    {
      EndedHoldsNothing(plan, run[i].threads[t], r);
    }
  }

  /** In every interleaving, at every moment, no row has been handed out twice and no foreign row at all; when
      all threads have ended, every row of every unit has been handed out exactly once. */
  lemma ExactlyOnce(plan: Plan, run: seq<State>, i: nat, r: UnitRow)
    requires IsRun(plan, run) && i < |run|
    ensures run[i].shared.emitted[r] <= Planned(plan, r)
    ensures AllEnded(run[i]) && run[i].threads != [] ==> run[i].shared.emitted[r] == Planned(plan, r)
  {
    hide IsRun, LocalInv, HeldByAll, SessionsApart, Planned;
    RunInv(plan, run, i);
    var s := run[i];
    if AllEnded(s) && s.threads != [] {
      NothingHeldAtEnd(plan, s.threads, r);
      EmptyChunk(plan, run, i, 0);
      NotPlanned(plan, r);
    }
  }

  /** The planning session is used by at most one thread, and no other session by two. */
  lemma SessionsNotShared(plan: Plan, run: seq<State>, i: nat, t: nat, u: nat)
    requires IsRun(plan, run) && i < |run| && t < u < |run[i].threads| && run[i].threads[t].session != None
    ensures run[i].threads[t].session != run[i].threads[u].session
    ensures run[i].threads[t].session != run[i].shared.spare
  {
    hide IsRun, LocalInv, HeldByAll;
    RunInv(plan, run, i);
  }

  // Termination

  function Rank(pc: Pc): nat {
    match pc
    case Idle => 5
    case Filling => 4
    case Next => 3
    case Claim => 2
    case Take(_) => 9
    case Login(_) => 8
    case Run(_) => 7
    case Leaving => 1
    case Ended => 0
  }

  /** What a thread still has to do, every row weighed by how far it is from being handed out. */
  function Work(plan: Plan, l: Local): nat
    requires l.batchNext <= |l.batch|
  {
    9 * (if l.reading then |l.pending| else 0) + 7 * (|l.batch| - l.batchNext) + 5 * |l.chunk| + Rank(l.pc)
    + if HasUnit(l.pc) && l.pc.unit < |plan| then 9 * plan[l.pc.unit] else 0
  }

  function UntakenWork(plan: Plan, unit: nat): nat
    decreases |plan| - unit
  {
    if unit >= |plan| then 0 else 10 + 9 * plan[unit] + UntakenWork(plan, unit + 1)
  }

  function WorkOfAll(plan: Plan, threads: seq<Local>): nat
    requires BatchesFit(threads)
  {
    if threads == [] then 0 else WorkOfAll(plan, threads[..|threads| - 1]) + Work(plan, threads[|threads| - 1])
  }

  function Measure(plan: Plan, s: State): nat
    requires BatchesFit(s.threads)
  {
    WorkOfAll(plan, s.threads) + UntakenWork(plan, s.shared.nextUnit)
  }

  lemma {:induction false} WorkAfterMove(plan: Plan, threads: seq<Local>, t: nat, l: Local)
    requires BatchesFit(threads) && t < |threads| && l.batchNext <= |l.batch|
    ensures BatchesFit(threads[t := l])
    ensures WorkOfAll(plan, threads[t := l]) + Work(plan, threads[t]) == WorkOfAll(plan, threads) + Work(plan, l)
  {
    hide Work;
    var n := |threads| - 1;
    if t == n {
      assert threads[t := l][..n] == threads[..n];
    } else {
      WorkAfterMove(plan, threads[..n], t, l);
      assert threads[t := l][..n] == threads[..n][t := l];
    }
  }

  lemma TurnWork(plan: Plan, g: Shared, l: Local, f: Fetch)
    requires FetchAllowed(l, f) && LocalInv(plan, l) && !l.pc.Ended?
    ensures var turn := TakeTurn(plan, g, l, f);
            && l.batchNext <= |l.batch| && turn.local.batchNext <= |turn.local.batch|
            && Work(plan, turn.local) + UntakenWork(plan, turn.shared.nextUnit)
             < Work(plan, l) + UntakenWork(plan, g.nextUnit)
  {
    hide Copied, Fetched, UnitRows, FetchAllowed;
    if l.pc.Filling? && |l.chunk| < CHUNK && !l.finished && l.batchNext < |l.batch| {
      CopyWork(plan, l);
    } else if l.pc.Next? && l.reading {
      FetchWork(plan, l, f);
    } else if l.pc.Run? {
      RunWork(plan, l);
    }
  }

  lemma RunWork(plan: Plan, l: Local)
    requires LocalInv(plan, l) && l.pc.Run?
    ensures Work(plan, l.(pending := UnitRows(plan, l.pc.unit), done := false, reading := true, pc := Next))
          < Work(plan, l)
  {
    hide UnitRows;
  }

  lemma CopyWork(plan: Plan, l: Local)
    requires LocalInv(plan, l) && l.pc.Filling? && l.batchNext < |l.batch| && |l.chunk| < CHUNK
    ensures Copied(l).batchNext <= |Copied(l).batch| && Work(plan, Copied(l)) < Work(plan, l)
  {}

  lemma FetchWork(plan: Plan, l: Local, f: Fetch)
    requires LocalInv(plan, l) && l.pc.Next? && l.reading && FetchAllowed(l, f)
    ensures Fetched(l, f).batchNext <= |Fetched(l, f).batch| && Work(plan, Fetched(l, f)) < Work(plan, l)
  {}

  /** Every step brings the scan closer to its end. */
  lemma StepWork(plan: Plan, s: State, t: nat, f: Fetch)
    requires Inv(plan, s) && CanStep(s, t, f)
    ensures BatchesFit(After(plan, s, t, f).threads)
    ensures Measure(plan, After(plan, s, t, f)) < Measure(plan, s)
  {
    hide TakeTurn, LocalInv, Conserved, SessionsApart, FetchAllowed, Work, WorkOfAll, UntakenWork;
    TurnWork(plan, s.shared, s.threads[t], f);
    WorkAfterMove(plan, s.threads, t, TakeTurn(plan, s.shared, s.threads[t], f).local);
  }

  /** No schedule runs for ever. */
  lemma {:induction false} RunsEnd(plan: Plan, run: seq<State>, i: nat)
    requires IsRun(plan, run) && i < |run|
    ensures BatchesFit(run[0].threads) && BatchesFit(run[i].threads)
    ensures i + Measure(plan, run[i]) <= Measure(plan, run[0])
  {
    hide Init, After, Measure, LocalInv, Conserved, SessionsApart;
    RunInv(plan, run, 0);
    RunInv(plan, run, i);
    if i > 0 {
      RunsEnd(plan, run, i - 1);
      RunInv(plan, run, i - 1);
      var s, s' := run[i - 1], run[i];
      assert Step(plan, run[i - 1], run[i - 1 + 1]);
      var t: nat, f: Fetch :| CanStep(s, t, f) && s' == After(plan, s, t, f);
      StepWork(plan, s, t, f);
    }
  }

  /** Until all threads have ended, some thread can go on. */
  lemma NotStuck(s: State)
    ensures AllEnded(s) <==> !exists t: nat, f: Fetch :: CanStep(s, t, f)
  {
    if !AllEnded(s) {
      var t :| 0 <= t < |s.threads| && !s.threads[t].pc.Ended?;
      assert CanStep(s, t, Fetch(|s.threads[t].pending|, true));
    }
  }
}
